/** The number printing of kernel/vsprintf.c and its reading counterpart skip_atoi. */
module Printing {
  const TWO31: int := 0x8000_0000
  const TWO32: int := 0x1_0000_0000

  type int32 = n: int | -0x8000_0000 <= n < 0x8000_0000

  datatype Flags = Flags(zeropad: bool, sign: bool, plus: bool, space: bool, left: bool, special: bool, small: bool)

  const UPPER: string := "0123456789ABCDEFGHIJKLMNOPQRSTUVWXYZ"
  const LOWER: string := "0123456789abcdefghijklmnopqrstuvwxyz"

  function Table(small: bool): (t: string)
    ensures |t| == 36
  {
    if small then LOWER else UPPER
  }

  function DigitOf(d: int, small: bool): char
    requires 0 <= d < 36
  {
    Table(small)[d]
  }

  /** The value of a digit in either table, -1 for other characters. */
  function ValueOf(c: char): int {
    if '0' <= c <= '9' then c as int - '0' as int
    else if 'A' <= c <= 'Z' then c as int - 'A' as int + 10
    else if 'a' <= c <= 'z' then c as int - 'a' as int + 10
    else -1
  }

  lemma DigitValue(d: int, small: bool)
    requires 0 <= d < 36
    ensures ValueOf(DigitOf(d, small)) == d
  {
    if small { LowerValue(d); } else { UpperValue(d); }
  }

  lemma UpperValue(d: int)
    requires 0 <= d < 36
    ensures ValueOf(UPPER[d]) == d
  {
    var upper := UPPER;
    assert |upper| == 36;
  }

  lemma LowerValue(d: int)
    requires 0 <= d < 36
    ensures ValueOf(LOWER[d]) == d
  {
    var lower := LOWER;
    assert |lower| == 36;
  }

  /** What a string of digits means in a base. */
  function Value(s: string, base: int): int {
    if s == "" then 0 else Value(s[..|s| - 1], base) * base + ValueOf(s[|s| - 1])
  }

  /** The digits of a number, most significant first; none for 0. */
  function Digits(n: nat, base: int, small: bool): string
    requires 2 <= base <= 36
  {
    if n == 0 then "" else Digits(n / base, base, small) + [DigitOf(n % base, small)]
  }

  function Power(base: nat, k: nat): nat { if k == 0 then 1 else base * Power(base, k - 1) }

  lemma DivMod(n: nat, base: int)
    requires base >= 2
    ensures n == (n / base) * base + n % base && 0 <= n % base < base && (n > 0 ==> 0 <= n / base < n)
  {
    if n > 0 {
      Doubles(base, n);
      DivSmaller(n, base, n);
    }
    QuotientTimes(n, base);
  }

  lemma Doubles(base: int, n: nat)
    requires base >= 2
    ensures base * n >= 2 * n
  {
  }

  lemma QuotientTimes(n: nat, base: int)
    requires base >= 2
    ensures n == (n / base) * base + n % base && 0 <= n % base < base
  {
  }

  lemma DivSmaller(n: nat, base: int, p: nat)
    requires base >= 2 && n < base * p
    ensures 0 <= n / base < p
  {
    TimesMonotone(base, n / base, p);
    assert base * (n / base) <= n;
  }

  lemma TimesMonotone(base: int, a: int, b: int)
    requires base >= 0
    ensures a >= b ==> base * a >= base * b && a * base >= b * base
  {
  }

  lemma ValueLast(s: string, c: char, base: int)
    ensures Value(s + [c], base) == Value(s, base) * base + ValueOf(c)
  {
    assert (s + [c])[..|s|] == s;
  }

  /** The digits read back as the number. */
  lemma {:induction false} DigitsMean(n: nat, base: int, small: bool)
    requires 2 <= base <= 36
    ensures Value(Digits(n, base, small), base) == n
    decreases n
  {
    if n > 0 {
      DivMod(n, base);
      DigitsMean(n / base, base, small);
      DigitValue(n % base, small);
      ValueLast(Digits(n / base, base, small), DigitOf(n % base, small), base);
    }
  }

  /** The first digit is not 0. */
  lemma {:induction false} NoLeadingZero(n: nat, base: int, small: bool)
    requires 2 <= base <= 36 && n > 0
    ensures Digits(n, base, small) != "" && ValueOf(Digits(n, base, small)[0]) > 0
    decreases n
  {
    DivMod(n, base);
    DigitValue(n % base, small);
    if n / base > 0 {
      NoLeadingZero(n / base, base, small);
    }
  }

  /** k digits suffice below base to the k. */
  lemma {:induction false} DigitsShort(n: nat, base: int, small: bool, k: nat)
    requires 2 <= base <= 36 && n < Power(base, k)
    ensures |Digits(n, base, small)| <= k
    decreases n
  {
    if n > 0 {
      assert k > 0;
      DivMod(n, base);
      DivSmaller(n, base, Power(base, k - 1));
      DigitsShort(n / base, base, small, k - 1);
    }
  }

  lemma {:induction false} PowerGrows(base: nat, k: nat)
    requires base >= 2
    ensures Power(base, k) >= Power(2, k) >= 1
  {
    if k > 0 {
      PowerGrows(base, k - 1);
    }
  }

  lemma TwoTo32()
    ensures Power(2, 32) == TWO32
  {
    assert Power(2, 8) == 256;
    assert Power(2, 16) == 65536;
    assert Power(2, 24) == 16777216;
  }

  /** s is how n is written in a base: digits of the table, no 0 in front. */
  ghost predicate Spells(s: string, n: nat, base: int, small: bool) {
    && s != "" && (forall k | 0 <= k < |s| :: IsDigitIn(s[k], base, small)) && (|s| > 1 ==> ValueOf(s[0]) != 0)
    && Value(s, base) == n
  }

  ghost predicate IsDigitIn(c: char, base: int, small: bool) { 0 <= ValueOf(c) < base <= 36 && c == DigitOf(ValueOf(c), small) }

  lemma {:induction false} DigitsIn(n: nat, base: int, small: bool)
    requires 2 <= base <= 36
    ensures forall k | 0 <= k < |Digits(n, base, small)| :: IsDigitIn(Digits(n, base, small)[k], base, small)
    decreases n
  {
    if n > 0 {
      DivMod(n, base);
      DigitValue(n % base, small);
      DigitsIn(n / base, base, small);
    }
  }

  /** The digits spell the number, and at most 32 of them go into tmp[36]. */
  lemma DigitsSpell(n: nat, base: int, small: bool)
    requires 2 <= base <= 36 && 0 < n < TWO32
    ensures Spells(Digits(n, base, small), n, base, small) && |Digits(n, base, small)| <= 32
  {
    TwoTo32();
    PowerGrows(base, 32);
    DigitsShort(n, base, small, 32);
    DigitsMean(n, base, small);
    NoLeadingZero(n, base, small);
    DigitsIn(n, base, small);
  }

  lemma ZeroSpells(base: int, small: bool)
    requires 2 <= base <= 36
    ensures Spells("0", 0, base, small)
  {
    DigitValue(0, small);
    ValueLast("", '0', base);
    assert "" + ['0'] == "0";
  }

  lemma {:induction false} ValueNotNegative(s: string, base: int, small: bool)
    requires 2 <= base <= 36 && forall k | 0 <= k < |s| :: IsDigitIn(s[k], base, small)
    ensures Value(s, base) >= 0 && (s != "" && ValueOf(s[0]) > 0 ==> Value(s, base) > 0)
  {
    if s != "" {
      var n := |s| - 1;
      ValueNotNegative(s[..n], base, small);
      TimesMonotone(Value(s[..n], base), base, 1);
    }
  }

  /** A number is spelled in one way only. */
  lemma {:induction false} SpellsOnce(s: string, n: nat, base: int, small: bool)
    requires 2 <= base <= 36 && n > 0 && Spells(s, n, base, small)
    ensures s == Digits(n, base, small)
    decreases |s|
  {
    var k := |s| - 1;
    var m := Value(s[..k], base);
    assert s == s[..k] + [s[k]];
    ValueLast(s[..k], s[k], base);
    assert IsDigitIn(s[k], base, small);
    ValueNotNegative(s[..k], base, small);
    Quotient(n, base, m, ValueOf(s[k]));
    if k > 0 {
      SpellsOnce(s[..k], m, base, small);
    }
  }

  lemma Quotient(n: nat, base: int, q: nat, r: nat)
    requires base >= 2 && n == q * base + r && r < base
    ensures n / base == q && n % base == r
  {
    DivMod(n, base);
    TimesMonotone(base, q, n / base + 1);
    TimesMonotone(base, n / base, q + 1);
  }

  lemma {:induction false} LeadingZeros(z: nat, s: string, base: int)
    ensures Value(Repeat('0', z) + s, base) == Value(s, base)
    decreases |s|, z
  {
    if s != "" {
      LeadingZeros(z, s[..|s| - 1], base);
      assert (Repeat('0', z) + s)[..z + |s| - 1] == Repeat('0', z) + s[..|s| - 1];
    } else if z > 0 {
      LeadingZeros(z - 1, "", base);
      assert (Repeat('0', z) + "")[..z - 1] == Repeat('0', z - 1) + "";
    }
  }

  function Repeat(c: char, n: int): (s: string)
    ensures |s| == if n < 0 then 0 else n
    ensures forall k | 0 <= k < |s| :: s[k] == c
  {
    seq(if n < 0 then 0 else n, _ => c)
  }

  lemma RepeatMore(s: string, c: char, n: int)
    requires n >= 0
    ensures s + Repeat(c, n) + [c] == s + Repeat(c, n + 1)
  {
  }

  function Max(a: int, b: int): int { if a > b then a else b }

  /** What is printed for a number: signed numbers by their absolute value, others as 32
      unsigned bits. */
  function Magnitude(num: int32, t: Flags): nat {
    var n: int := num;
    if t.sign && n < 0 then -n else if n < 0 then n + TWO32 else n
  }

  function SignOf(num: int32, t: Flags): string {
    if t.sign && num < 0 then "-" else if t.plus then "+" else if t.space then " " else ""
  }

  function Prefix(base: int, t: Flags): string {
    if !t.special then "" else if base == 8 then "0" else if base == 16 then (if t.small then "0x" else "0X") else ""
  }

  /** The parts of a printed number, from left to right. */
  datatype Parts = Parts(pad: string, sign: string, prefix: string, fill: string, zeros: string, digits: string, tail: string)

  function Text(p: Parts): string { p.pad + p.sign + p.prefix + p.fill + p.zeros + p.digits + p.tail }

  ghost predicate All(s: string, c: char) { forall k | 0 <= k < |s| :: s[k] == c }

  /** What number promises: sign and prefix as asked; the digits of the number; zeros up to
      the precision; and padding, in one place only, that makes up the width. */
  ghost predicate Printed(p: Parts, num: int32, base: int, size: int, precision: int, t: Flags)
    requires 2 <= base <= 36
  {
    && p.sign == SignOf(num, t) && p.prefix == Prefix(base, t)
    && Spells(p.digits, Magnitude(num, t), base, t.small) && |p.digits| <= 32
    && All(p.zeros, '0') && |p.zeros| + |p.digits| == Max(precision, |p.digits|)
    && All(p.pad, ' ') && (p.pad != "" ==> !t.left && !t.zeropad)
    && All(p.fill, '0') && (p.fill != "" ==> !t.left && t.zeropad)
    && All(p.tail, ' ') && (p.tail != "" ==> t.left)
    && |Text(p)| == Max(size, |p.sign| + |p.prefix| + Max(precision, |p.digits|))
  }

  /** What a printed number says: read with its sign it is the number, if it was printed as a
      signed one, else the number's 32 bits; a number of base 8 has "0" in front, one of base 16
      "0x" or "0X", if that was asked for. */
  lemma PrintedMeans(p: Parts, num: int32, base: int, size: int, precision: int, t: Flags)
    requires 2 <= base <= 36 && Printed(p, num, base, size, precision, t)
    ensures var v := Value(p.zeros + p.digits, base);
      if t.sign then num == (if p.sign == "-" then -v else v) else v == (if num < 0 then num + 0x1_0000_0000 else num) && p.sign != "-"
    ensures p.sign == "-" <==> t.sign && num < 0
    ensures p.sign != "-" ==> p.sign == if t.plus then "+" else if t.space then " " else ""
    ensures p.prefix == if t.special && base == 8 then "0" else if t.special && base == 16 && t.small then "0x" else if t.special && base == 16 then "0X" else ""
  {
    SameRepeat(p.zeros);
    LeadingZeros(|p.zeros|, p.digits, base);
    assert "+" != "-" && " " != "-" && "" != "-";
  }

  function Reversed(s: string): (r: string)
    ensures |r| == |s| && forall k | 0 <= k < |s| :: r[k] == s[|s| - 1 - k]
  {
    if s == "" then "" else [s[|s| - 1]] + Reversed(s[..|s| - 1])
  }

  // vsprintf.c:104-111
  method Convert(n0: nat, base: int, small: bool) returns (tmp: string)
    requires 2 <= base <= 36 && n0 < TWO32
    ensures Spells(Reversed(tmp), n0, base, small) && |tmp| <= 32
  {
    tmp := "";
    if n0 == 0 {
      tmp := tmp + "0";
      assert Reversed(tmp) == "0";
      ZeroSpells(base, small);
      return;
    }
    var n := n0;
    assert Digits(n0, base, small) + "" == Digits(n0, base, small);
    while n != 0
      invariant n >= 0 && Rest(n0, n, tmp, base, small)
      decreases n
    {
      DivMod(n, base);
      RestStep(n0, n, tmp, base, small);
      tmp := tmp + [DigitOf(n % base, small)];
      n := n / base;
    }
    RestDone(n0, tmp, base, small);
    DigitsSpell(n0, base, small);
  }

  /** What is still to be converted, and what is in tmp. */
  ghost predicate Rest(n0: nat, n: nat, tmp: string, base: int, small: bool) {
    2 <= base <= 36 && Digits(n0, base, small) == Digits(n, base, small) + Reversed(tmp)
  }

  lemma RestStep(n0: nat, n: nat, tmp: string, base: int, small: bool)
    requires Rest(n0, n, tmp, base, small) && n > 0
    ensures 0 <= n % base < 36 && 0 <= n / base && Rest(n0, n / base, tmp + [DigitOf(n % base, small)], base, small)
  {
    DivMod(n, base);
    assert (tmp + [DigitOf(n % base, small)])[..|tmp|] == tmp;
    assert Digits(n, base, small) + Reversed(tmp) == Digits(n / base, base, small) + ([DigitOf(n % base, small)] + Reversed(tmp));
  }

  lemma RestDone(n0: nat, tmp: string, base: int, small: bool)
    requires Rest(n0, 0, tmp, base, small)
    ensures 2 <= base <= 36 && Reversed(tmp) == Digits(n0, base, small)
  {
    assert Digits(0, base, small) == "";
    assert "" + Reversed(tmp) == Reversed(tmp);
  }

  /** "while (n-- > 0) *str++ = c". */
  method Fill(str: string, c: char, n: int) returns (out: string, left: int)
    ensures out == str + Repeat(c, n) && left == if n > 0 then -1 else n - 1
  {
    out, left := str, n;
    ghost var k := 0;
    while left > 0
      invariant k >= 0 && out == str + Repeat(c, k) && left == n - k && (n > 0 ==> left >= 0) && (n <= 0 ==> k == 0)
    {
      RepeatMore(str, c, k);
      out := out + [c];
      left := left - 1;
      k := k + 1;
    }
    left := left - 1;
  }

  /** "while (i-- > 0) *str++ = tmp[i]". */
  method PutBack(str: string, tmp: string) returns (out: string)
    ensures out == str + Reversed(tmp)
  {
    out := str;
    var i := |tmp|;
    while i > 0
      invariant 0 <= i <= |tmp| && out == str + Reversed(tmp)[..|tmp| - i]
    {
      i := i - 1;
      assert Reversed(tmp)[..|tmp| - i] == Reversed(tmp)[..|tmp| - i - 1] + [tmp[i]];
      out := out + [tmp[i]];
    }
    assert Reversed(tmp)[..|tmp|] == Reversed(tmp);
  }

  /** number; ok is false for a base out of range. */
  method Number(num: int32, base: int, size: int, precision: int, t: Flags) returns (str: string, ok: bool, ghost parts: Parts)
    ensures ok <==> 2 <= base <= 36
    ensures ok ==> str == Text(parts) && Printed(parts, num, base, size, precision, t)
    ensures !ok ==> str == ""
  {
    str, parts := "", Parts("", "", "", "", "", "", "");
    ok := 2 <= base <= 36;
    if ok {
      str, parts := Lay(num, base, size, precision, t);
    }
  }

  // vsprintf.c:82-103, after the check of the base
  method Lay(num: int32, base: int, size0: int, precision0: int, t0: Flags) returns (str: string, ghost parts: Parts)
    requires 2 <= base <= 36
    ensures str == Text(parts) && Printed(parts, num, base, size0, precision0, t0)
  {
    var t := t0;
    if t.left {
      t := t.(zeropad := false);
    }
    str, parts := Place(num, base, size0, precision0, t);
    FlagsEffective(parts, num, base, size0, precision0, t0);
  }

  // vsprintf.c:87-141
  method Place(num: int32, base: int, size0: int, precision0: int, t: Flags) returns (str: string, ghost parts: Parts)
    requires 2 <= base <= 36 && (t.left ==> !t.zeropad)
    ensures str == Text(parts) && Printed(parts, num, base, size0, precision0, t)
  {
    var c := if t.zeropad then '0' else ' ';
    var size := RoomFor(num, base, size0, t);
    var tmp := Convert(Magnitude(num, t), base, t.small);
    var precision := if |tmp| > precision0 then |tmp| else precision0;
    PartsPrinted(num, base, size0, precision0, t, size - precision, precision - |tmp|, Reversed(tmp));
    str, parts := Emit(size - precision, num, base, c, t, precision, tmp);
  }

  // vsprintf.c:88-103
  method RoomFor(num: int32, base: int, size0: int, t: Flags) returns (size: int)
    ensures size == size0 - |SignOf(num, t)| - |Prefix(base, t)|
  {
    size := size0;
    if SignOf(num, t) != "" {
      size := size - 1;
    }
    if t.special {
      if base == 16 {
        size := size - 2;
      } else if base == 8 {
        size := size - 1;
      }
    }
  }

  /** Adjusting to the left turns zero padding off. */
  lemma FlagsEffective(p: Parts, num: int32, base: int, size: int, precision: int, t: Flags)
    requires 2 <= base <= 36 && Printed(p, num, base, size, precision, if t.left then t.(zeropad := false) else t)
    ensures Printed(p, num, base, size, precision, t)
  {
  }

  // vsprintf.c:115-141
  method Emit(room: int, num: int32, base: int, c: char, t: Flags, precision: int, tmp: string) returns (str: string, ghost parts: Parts)
    requires t.left ==> !t.zeropad
    requires c == if t.zeropad then '0' else ' '
    ensures parts == PartsOf(num, base, t, room, precision - |tmp|, Reversed(tmp)) && str == Text(parts)
  {
    parts := PartsOf(num, base, t, room, precision - |tmp|, Reversed(tmp));
    str := "";
    var size := room;
    if !t.zeropad && !t.left {
      str, size := Fill(str, ' ', size);
    }
    assert str == parts.pad;
    str := str + SignOf(num, t) + Prefix(base, t);
    ghost var front := str;
    if !t.left {
      str, size := Fill(str, c, size);
    }
    assert str == front + parts.fill;
    var unused;
    str, unused := Fill(str, '0', precision - |tmp|);
    str := PutBack(str, tmp);
    ghost var most := str;
    str, unused := Fill(str, ' ', size);
    assert str == most + parts.tail;
  }

  lemma TextLength(p: Parts)
    ensures |Text(p)| == |p.pad| + |p.sign| + |p.prefix| + |p.fill| + |p.zeros| + |p.digits| + |p.tail|
  {
  }

  lemma PartsPrinted(num: int32, base: int, size: int, precision: int, t: Flags, room: int, z: int, digits: string)
    requires 2 <= base <= 36 && Spells(digits, Magnitude(num, t), base, t.small) && |digits| <= 32 && (t.left ==> !t.zeropad)
    requires z == Max(precision, |digits|) - |digits| && room == size - |SignOf(num, t)| - |Prefix(base, t)| - Max(precision, |digits|)
    ensures Printed(PartsOf(num, base, t, room, z, digits), num, base, size, precision, t)
  {
    var p := PartsOf(num, base, t, room, z, digits);
    TextLength(p);
    assert All(p.pad, ' ') && All(p.fill, '0') && All(p.tail, ' ') && All(p.zeros, '0');
  }

  /** Where the room that is left goes. */
  function PartsOf(num: int32, base: int, t: Flags, room: int, z: int, digits: string): Parts {
    Parts(if !t.zeropad && !t.left then Repeat(' ', room) else "", SignOf(num, t), Prefix(base, t),
          if t.zeropad && !t.left then Repeat('0', room) else "", Repeat('0', z), digits,
          if t.left then Repeat(' ', room) else "")
  }

  // ---- reading ---------------------------------------------------------------------------------------

  predicate IsDigit(c: char) { '0' <= c <= '9' }

  /** What 32 bits keep of a number. */
  function ToInt32(n: int): int32 { (n + TWO31) % TWO32 - TWO31 }

  /** The same in the lower 32 bits. */
  ghost predicate Same32(i: int, v: int) { exists q :: Differ(i, v, q) }
  ghost predicate Differ(i: int, v: int, q: int) { v == i + q * TWO32 }

  lemma Narrowed(n: int)
    ensures Same32(ToInt32(n), n)
  {
    assert Differ(ToInt32(n), n, (n + TWO31) / TWO32);
  }

  lemma StepDigit(i: int32, was: string, c: char)
    requires IsDigit(c) && Value(was, 10) >= 0 && Same32(i, Value(was, 10))
    ensures Same32(ToInt32(i * 10 + (c as int - '0' as int)), Value(was + [c], 10)) && Value(was + [c], 10) >= 0
  {
    ValueLast(was, c, 10);
    var d := c as int - '0' as int;
    var x: int := i * 10 + d;
    var q :| Differ(i, Value(was, 10), q);
    assert Differ(i, Value(was, 10), q);
    Narrowed(x);
    var r :| Differ(ToInt32(x), x, r);
    assert Differ(ToInt32(x), x, r);
    assert Differ(ToInt32(x), Value(was + [c], 10), r + 10 * q);
  }

  // "i = i * 10 + digit", in 32 bits
  /** i is what 32 bits hold of the number that the digits read so far spell. */
  ghost predicate Holds(i: int, read: string) {
    Value(read, 10) >= 0 && Same32(i, Value(read, 10)) && forall k | 0 <= k < |read| :: IsDigit(read[k])
  }

  method AddDigit(i: int32, c: char, ghost was: string) returns (r: int32)
    requires IsDigit(c) && Holds(i, was)
    ensures Holds(r, was + [c])
  {
    StepDigit(i, was, c);
    r := ToInt32(i * 10 + (c as int - '0' as int));
  }

  lemma FitsInt32(i: int32, v: int)
    requires Same32(i, v) && 0 <= v < TWO31
    ensures i == v
  {
    var q :| Differ(i, v, q);
    assert Differ(i, v, q);
  }

  /** skip_atoi: the value of the leading digits, as far as 32 bits hold it, and the place
      behind them. */
  method SkipAtoi(s: string, start: nat) returns (i: int32, end: nat)
    requires start <= |s|
    ensures start <= end <= |s| && LeadingDigits(s[start..], end - start)
    ensures Same32(i, Value(s[start..end], 10))
    ensures Value(s[start..end], 10) < TWO31 ==> i == Value(s[start..end], 10)
  {
    i, end := 0, start;
    ghost var read := "";
    assert Differ(0, Value("", 10), 0);
    while end < |s| && IsDigit(s[end])
      invariant start <= end <= |s| && Spans(s, start, end, read) && Holds(i, read)
    {
      i := AddDigit(i, s[end], read);
      read := read + [s[end]];
      end := end + 1;
    }
    ReadUpTo(s, start, end, i, read);
  }

  ghost predicate Spans(s: string, start: nat, end: nat, read: string) {
    start <= end <= |s| && |read| == end - start && forall k | 0 <= k < |read| :: read[k] == s[start + k]
  }

  lemma ReadUpTo(s: string, start: nat, end: nat, i: int32, read: string)
    requires Spans(s, start, end, read) && Holds(i, read) && (end < |s| ==> !IsDigit(s[end]))
    ensures LeadingDigits(s[start..], end - start) && s[start..end] == read
    ensures Value(read, 10) < TWO31 ==> i == Value(read, 10)
  {
    if Value(read, 10) < TWO31 { FitsInt32(i, Value(read, 10)); }
    assert s[start..end] == read;
    forall k | 0 <= k < end - start
      ensures IsDigit(s[start..][k])
    {
      assert s[start..][k] == read[k];
    }
  }

  lemma DecimalDigits(s: string, small: bool)
    requires forall k | 0 <= k < |s| :: IsDigitIn(s[k], 10, small)
    ensures forall k | 0 <= k < |s| :: IsDigit(s[k])
  {
    forall k | 0 <= k < |s|
      ensures IsDigit(s[k])
    {
      assert IsDigitIn(s[k], 10, small);
    }
  }

  /** Round trip: a number printed in decimal without blanks, sign or prefix, with or without
      zeros in front, is what skip_atoi reads, followed by anything but a digit. */
  lemma PrintedReadsBack(p: Parts, num: int32, size: int, precision: int, t: Flags, rest: string)
    requires Printed(p, num, 10, size, precision, t) && num >= 0 && !t.plus && !t.space && p.pad == "" && p.tail == ""
    requires rest == "" || !IsDigit(rest[0])
    ensures forall k | 0 <= k < |Text(p)| :: IsDigit(Text(p)[k])
    ensures Value(Text(p), 10) == num
    ensures forall end | LeadingDigits(Text(p) + rest, end) :: Value((Text(p) + rest)[..end], 10) == num
  {
    PlainText(p, num, size, precision, t);
    DigitsRead(Text(p), rest, num);
  }

  lemma DigitsRead(a: string, rest: string, num: int32)
    requires (forall k | 0 <= k < |a| :: IsDigit(a[k])) && (rest == "" || !IsDigit(rest[0])) && Value(a, 10) == num
    ensures forall end | LeadingDigits(a + rest, end) :: Value((a + rest)[..end], 10) == num
  {
    forall end | LeadingDigits(a + rest, end)
      ensures Value((a + rest)[..end], 10) == num
    {
      DigitsEnd(a, rest, end);
    }
  }

  lemma PlainText(p: Parts, num: int32, size: int, precision: int, t: Flags)
    requires Printed(p, num, 10, size, precision, t) && num >= 0 && !t.plus && !t.space && p.pad == "" && p.tail == ""
    ensures forall k | 0 <= k < |Text(p)| :: IsDigit(Text(p)[k])
    ensures Value(Text(p), 10) == num
  {
    DecimalDigits(p.digits, t.small);
    assert p.sign == "" && p.prefix == "";
    PlainParts(p);
    Plain(p.fill, p.zeros, p.digits);
  }

  lemma PlainParts(p: Parts)
    requires p.pad == "" && p.sign == "" && p.prefix == "" && p.tail == ""
    ensures Text(p) == p.fill + (p.zeros + p.digits)
  {
  }

  lemma Plain(fill: string, zeros: string, digits: string)
    requires All(fill, '0') && All(zeros, '0') && forall k | 0 <= k < |digits| :: IsDigit(digits[k])
    ensures forall k | 0 <= k < |fill + (zeros + digits)| :: IsDigit((fill + (zeros + digits))[k])
    ensures Value(fill + (zeros + digits), 10) == Value(digits, 10)
  {
    SameRepeat(fill);
    SameRepeat(zeros);
    LeadingZeros(|zeros|, digits, 10);
    LeadingZeros(|fill|, zeros + digits, 10);
  }

  lemma SameRepeat(s: string)
    requires All(s, '0')
    ensures s == Repeat('0', |s|)
  {
  }

  /** The digits in front of s are the first `end` characters. */
  predicate LeadingDigits(s: string, end: int) {
    0 <= end <= |s| && (forall k | 0 <= k < end :: IsDigit(s[k])) && (end < |s| ==> !IsDigit(s[end]))
  }

  lemma DigitsEnd(a: string, rest: string, end: int)
    requires (forall k | 0 <= k < |a| :: IsDigit(a[k])) && (rest == "" || !IsDigit(rest[0])) && LeadingDigits(a + rest, end)
    ensures end == |a| && (a + rest)[..end] == a
  {
    var s := a + rest;
    assert forall k | 0 <= k < |a| :: s[k] == a[k];
    assert forall k | 0 <= k < |rest| :: s[|a| + k] == rest[k];
  }
}
