/** What a formatted string is: the text of each conversion by the rules for `fprintf` in section 7.19.6.1 of
    ISO/IEC 9899:1999. */
module FormatSpec {
  import opened Wrappers

  /** An argument: a number, a string, which may be a null pointer, or another pointer with what the system prints for it. */
  datatype Arg = Num(v: int) | Text(s: Option<string>) | Pointer(isNull: bool, shown: string)

  /** A conversion specification.  `sign` asks for a sign before numbers that are not negative, `plus` says which. */
  datatype Spec = Spec(zero: bool, left: bool, sign: bool, plus: bool, alt: bool, width: nat, precision: Option<nat>,
                       long: bool, conv: char)

  function Repeat(c: char, n: int): (s: string)
    ensures |s| == if n < 0 then 0 else n
    ensures forall k :: 0 <= k < |s| ==> s[k] == c
  {
    if n <= 0 then "" else seq(n, _ => c)
  }

  // ---- plain numbers ----

  function DigitChar(d: nat, upper: bool): (c: char)
    requires d < 16
    ensures c != '-' && c != 'x' && c != 'X' && (c == '0' <==> d == 0)
  {
    if d < 10 then (48 + d) as char else if upper then (55 + d) as char else (87 + d) as char
  }

  /** The digits of `v`. */
  function Digits(v: nat, base: nat, upper: bool): (s: string)
    requires 2 <= base <= 16
    ensures |s| > 0 && (forall k :: 0 <= k < |s| ==> s[k] != '-' && s[k] != 'x' && s[k] != 'X')
    ensures s[0] == '0' <==> v == 0
    ensures v == 0 ==> |s| == 1
    decreases v
  {
    if v < base then [DigitChar(v, upper)]
    else
      assert 0 < v / base < v;
      Digits(v / base, base, upper) + [DigitChar(v % base, upper)]
  }

  function DigitValue(c: char): int {
    if '0' <= c <= '9' then c as int - 48 else if 'A' <= c <= 'F' then c as int - 55 else c as int - 87
  }

  function ValueOf(s: string, base: nat): int {
    if |s| == 0 then 0 else ValueOf(s[..|s| - 1], base) * base + DigitValue(s[|s| - 1])
  }

  /** The digits read back give the number, leading zeros or not. */
  lemma {:induction false} DigitsValue(v: nat, base: nat, upper: bool, zeros: nat)
    requires 2 <= base <= 16
    ensures ValueOf(Repeat('0', zeros) + Digits(v, base, upper), base) == v
    decreases v
  {
    hide ValueOf, DigitValue, DigitChar, Repeat;
    hide Digits;
    var front := Repeat('0', zeros);
    DigitsStep(v, base, upper);
    CharValue(v % base, upper);
    if v < base {
      ZerosValue(zeros, base);
      Snoc(front, DigitChar(v, upper), base);
      Small(v, base);
    } else {
      DigitsValue(v / base, base, upper, zeros);
      Snoc(front + Digits(v / base, base, upper), DigitChar(v % base, upper), base);
      assert front + Digits(v / base, base, upper) + [DigitChar(v % base, upper)] ==
             front + (Digits(v / base, base, upper) + [DigitChar(v % base, upper)]);
      Whole(v, base);
    }
  }

  lemma DigitsStep(v: nat, base: nat, upper: bool)
    requires 2 <= base <= 16
    ensures v < base ==> Digits(v, base, upper) == [DigitChar(v, upper)]
    ensures v >= base ==> 0 < v / base < v && Digits(v, base, upper) == Digits(v / base, base, upper) + [DigitChar(v % base, upper)]
  {
    hide DigitChar;
  }

  lemma CharValue(d: nat, upper: bool)
    requires d < 16
    ensures DigitValue(DigitChar(d, upper)) == d
  {}

  lemma Snoc(s: string, c: char, base: nat)
    ensures ValueOf(s + [c], base) == ValueOf(s, base) * base + DigitValue(c)
  {
    assert (s + [c])[..|s|] == s;
  }

  lemma Small(v: nat, base: nat)
    requires v < base
    ensures v % base == v && 0 * base == 0
  {}

  lemma Whole(v: nat, base: nat)
    requires base > 0
    ensures v / base * base + v % base == v
  {}

  lemma {:induction false} ZerosValue(zeros: nat, base: nat)
    ensures ValueOf(Repeat('0', zeros), base) == 0
  {
    if zeros > 0 {
      ZerosValue(zeros - 1, base);
      assert Repeat('0', zeros)[..zeros - 1] == Repeat('0', zeros - 1);
    }
  }

  predicate IsNumber(conv: char) {
    conv == 'd' || conv == 'u' || conv == 'o' || conv == 'x' || conv == 'X'
  }

  function BaseOf(conv: char): (b: nat)
    ensures 2 <= b <= 16
  {
    if conv == 'o' then 8 else if conv == 'x' || conv == 'X' then 16 else 10
  }

  /** An argument as an int or a long, and as their unsigned counterparts. */
  function SizeOf(spec: Spec): (n: nat)
    ensures 0 < n <= 0x1_0000_0000_0000_0000
  {
    if spec.long then 0x1_0000_0000_0000_0000 else 0x1_0000_0000
  }

  function Shown(spec: Spec, v: int): int {
    var n, u := SizeOf(spec), v % SizeOf(spec);
    if spec.conv == 'd' && u >= n / 2 then u - n else u
  }

  predicate InRange(spec: Spec, v: int) {
    -0x8000_0000_0000_0000 <= v < 0x1_0000_0000_0000_0000 && (v < 0 ==> spec.conv == 'd')
  }

  lemma ShownInRange(spec: Spec, v: int)
    ensures InRange(spec, Shown(spec, v))
    ensures spec.conv == 'd' && -(SizeOf(spec) / 2 as int) <= v < SizeOf(spec) / 2 ==> Shown(spec, v) == v
    ensures 0 <= v < SizeOf(spec) && spec.conv != 'd' ==> Shown(spec, v) == v
  {}

  // ---- the rules of the standard ----

  function Abs(v: int): nat { if v < 0 then -v else v }

  function Least(spec: Spec): nat {
    if spec.precision.Some? then spec.precision.value else 1
  }

  /** The digits without zeros in front; none for a zero with precision 0. */
  function Plain(spec: Spec, v: int): string {
    if v == 0 && Least(spec) == 0 then "" else Digits(Abs(v), BaseOf(spec.conv), spec.conv == 'X')
  }

  /** The digits of a number: at least as many as the precision says, and a leading zero for the alternate form of
      `o`. */
  function DigitsPart(spec: Spec, v: int): string {
    var digits := Repeat('0', Least(spec) - |Plain(spec, v)|) + Plain(spec, v);
    if spec.conv == 'o' && spec.alt && (|digits| == 0 || digits[0] != '0') then "0" + digits else digits
  }

  /** The sign or the prefix of the alternate form. */
  function SignPart(spec: Spec, v: int): string {
    if spec.conv == 'd' then if v < 0 then "-" else if spec.sign then if spec.plus then "+" else " " else ""
    else if spec.alt && v != 0 && spec.conv == 'x' then "0x"
    else if spec.alt && v != 0 && spec.conv == 'X' then "0X"
    else ""
  }

  /** A number in its field: zeros go behind the sign, but only without a precision and not at the right. */
  function NumberText(spec: Spec, v: int): string {
    InField(spec.left, spec.zero && spec.precision.None?, spec.width, SignPart(spec, v), DigitsPart(spec, v))
  }

  function InField(left: bool, zero: bool, width: nat, sign: string, digits: string): string {
    var pad := width - |sign| - |digits|;
    if left then sign + digits + Repeat(' ', pad)
    else if zero then sign + Repeat('0', pad) + digits
    else Repeat(' ', pad) + sign + digits
  }

  /** The digits, with all their zeros, read back as the magnitude of the number, and the precision is met. */
  lemma DigitsPartValue(spec: Spec, v: int)
    ensures ValueOf(DigitsPart(spec, v), BaseOf(spec.conv)) == Abs(v) && |DigitsPart(spec, v)| >= Least(spec)
    ensures spec.conv == 'o' && spec.alt ==> |DigitsPart(spec, v)| > 0 && DigitsPart(spec, v)[0] == '0'
  {
    hide ValueOf, Digits;
    var n := Least(spec) - |Plain(spec, v)|;
    var zeros := if n > 0 then n else 0;
    var front := Repeat('0', zeros);
    assert DigitsPart(spec, v) == front + Plain(spec, v) || DigitsPart(spec, v) == Repeat('0', zeros + 1) + Plain(spec, v) by {
      assert Repeat('0', zeros + 1) == "0" + front;
    }
    DigitsValue(Abs(v), BaseOf(spec.conv), spec.conv == 'X', zeros);
    DigitsValue(Abs(v), BaseOf(spec.conv), spec.conv == 'X', zeros + 1);
    ZerosValue(zeros, BaseOf(spec.conv));
    ZerosValue(zeros + 1, BaseOf(spec.conv));
    hide DigitsPart, Repeat;
    assert Plain(spec, v) == "" ==> front + Plain(spec, v) == front && Repeat('0', zeros + 1) + Plain(spec, v) == Repeat('0', zeros + 1);
  }

  /** The number of characters: the width, or what the number needs. */
  lemma NumberLength(spec: Spec, v: int)
    ensures var n := |SignPart(spec, v)| + |DigitsPart(spec, v)|;
            |NumberText(spec, v)| == if n < spec.width then spec.width else n
  {}

  function Pow8(n: nat): nat {
    if n == 0 then 1 else 8 * Pow8(n - 1)
  }

  lemma {:induction false} DigitsFew(v: nat, base: nat, upper: bool, n: nat)
    requires 8 <= base <= 16 && n > 0 && v < Pow8(n)
    ensures |Digits(v, base, upper)| <= n
    decreases n
  {
    hide Digits;
    DigitsStep(v, base, upper);
    if v >= base {
      assert n > 1 by { assert Pow8(1) == 8; }
      Eighth(v, base, Pow8(n - 1));
      DigitsFew(v / base, base, upper, n - 1);
    }
  }

  lemma Eighth(v: nat, base: nat, m: nat)
    requires base >= 8 && v < 8 * m
    ensures v / base < m
  {
    assert v / base * base <= v;
    if v / base >= m {
      Mono(m, v / base, base);
    }
  }

  lemma Mono(m: nat, q: nat, base: nat)
    requires m <= q && base >= 8
    ensures q * base >= m * 8
  {
    assert q * base >= q * 8;
  }

  /** No number of 64 bits has more than 22 digits. */
  lemma PlainShort(spec: Spec, v: int)
    requires IsNumber(spec.conv) && InRange(spec, v)
    ensures |Plain(spec, v)| <= 22
  {
    assert Pow8(22) == 0x4_0000_0000_0000_0000 by {
      assert Pow8(11) == 0x2_0000_0000;
    }
    DigitsFew(Abs(v), BaseOf(spec.conv), spec.conv == 'X', 22);
  }

  /** A character or a string in its field. */
  function PlainText(spec: Spec, s: string): string {
    var pad := spec.width - |s|;
    if spec.left then s + Repeat(' ', pad) else Repeat(' ', pad) + s
  }

  /** What `s` shows of its argument. */
  function Shortened(spec: Spec, s: Option<string>): string {
    if s.None? then ""
    else if spec.precision.Some? && spec.precision.value < |s.value| then s.value[..spec.precision.value]
    else s.value
  }
}
