/** What a formatted text looks like, said of the characters of the output. */
module FormatLaws {
  import opened FormatSpec
  import opened Snprintf
  import opened FormatRoundTrip
  import opened Wrappers

  // ---- a number ----

  /** What stands in front of the digits. */
  function Mark(s: Spec, n: int): string {
    if s.conv == 'd' then if n < 0 then "-" else if s.plus then "+" else if s.sign then " " else ""
    else if s.conv == 'x' && s.alt && n != 0 then "0x"
    else if s.conv == 'X' && s.alt && n != 0 then "0X"
    else ""
  }

  predicate DigitOf(conv: char, c: char) {
    || '0' <= c <= (if conv == 'o' then '7' else '9')
    || (conv == 'x' && 'a' <= c <= 'f')
    || (conv == 'X' && 'A' <= c <= 'F')
  }

  predicate DigitsOf(conv: char, digits: string) {
    forall k :: 0 <= k < |digits| ==> DigitOf(conv, digits[k])
  }

  /** A number with its zeros: at least as many digits as the precision says, and a zero in front for the alternate form of
      `o`. */
  function Core(s: Spec, digits: string): nat {
    var least := if s.precision.Some? then s.precision.value else 1;
    if s.conv == 'o' && s.alt && least <= |digits| && !(|digits| > 0 && digits[0] == '0') then |digits| + 1
    else if least > |digits| then least
    else |digits|
  }

  function Larger(a: nat, b: nat): nat {
    if a > b then a else b
  }

  /** `out` is `front` spaces, the sign or prefix, zeros, the digits and `back` spaces. */
  predicate Shape(out: string, s: Spec, n: int, front: nat, zeros: nat, digits: string, back: nat) {
    var mark := Mark(s, n);
    var body := |mark| + Core(s, digits);
    var total := Larger(s.width, body);
    && out == Repeat(' ', front) + mark + Repeat('0', zeros) + digits + Repeat(' ', back)
    && DigitsOf(s.conv, digits) && (|digits| == 0 <==> n == 0 && s.precision == Some(0)) && (|digits| > 1 ==> digits[0] != '0')
    && ValueOf(digits, if s.conv == 'o' then 8 else if s.conv == 'x' || s.conv == 'X' then 16 else 10) == (if n < 0 then -n else n)
    && if s.left then front == 0 && zeros == Core(s, digits) - |digits| && back == total - body
       else if s.zero && s.precision.None? then front == 0 && zeros == total - |mark| - |digits| && back == 0
       else front == total - body && zeros == Core(s, digits) - |digits| && back == 0
  }

  lemma {:induction false} DigitsAllowed(v: nat, conv: char)
    requires IsNumber(conv)
    ensures DigitsOf(conv, Digits(v, BaseOf(conv), conv == 'X'))
    decreases v
  {
    hide Digits;
    var base := BaseOf(conv);
    DigitsStep(v, base, conv == 'X');
    DigitAllowed(v % base, conv);
    if v >= base {
      DigitsAllowed(v / base, conv);
    } else {
      DigitAllowed(v, conv);
    }
  }

  lemma DigitAllowed(d: nat, conv: char)
    requires IsNumber(conv) && d < BaseOf(conv)
    ensures DigitOf(conv, DigitChar(d, conv == 'X'))
  {}

  lemma {:induction false} NoZeroFirst(v: nat, base: nat, upper: bool)
    requires 2 <= base <= 16
    ensures var s := Digits(v, base, upper); |s| > 0 && (|s| > 1 ==> s[0] != '0') && ValueOf(s, base) == v
  {
    hide Digits, ValueOf;
    DigitsValue(v, base, upper, 0);
    assert Repeat('0', 0) + Digits(v, base, upper) == Digits(v, base, upper);
  }

  lemma PlainIs(s: Spec, n: int)
    requires IsNumber(s.conv)
    ensures var digits := Plain(s, n);
            && DigitsOf(s.conv, digits) && (|digits| == 0 <==> n == 0 && s.precision == Some(0)) && (|digits| > 1 ==> digits[0] != '0')
            && ValueOf(digits, BaseOf(s.conv)) == Abs(n) && (|digits| > 0 && digits[0] == '0' <==> n == 0 && |digits| > 0)
  {
    hide Digits;
    NoZeroFirst(Abs(n), BaseOf(s.conv), s.conv == 'X');
    DigitsAllowed(Abs(n), s.conv);
  }

  lemma MarkIs(s: Spec, n: int)
    requires IsNumber(s.conv) && (s.plus ==> s.sign)
    ensures SignPart(s, n) == Mark(s, n)
  {}

  lemma CoreIs(s: Spec, n: int)
    requires IsNumber(s.conv)
    ensures Core(s, Plain(s, n)) == PrecisionZeros(s, Plain(s, n)) + |Plain(s, n)|
  {
    hide Plain;
  }

  /** The text of a number has this shape. */
  lemma TextShape(s: Spec, n: int) returns (front: nat, zeros: nat, back: nat)
    requires IsNumber(s.conv) && (s.plus ==> s.sign)
    ensures Shape(NumberText(s, n), s, n, front, zeros, Plain(s, n), back)
  {
    hide Plain, SignPart, DigitsOf, ValueOf, PrecisionZeros, Core, DigitsPart, Repeat, Mark;
    var mark, digits := Mark(s, n), Plain(s, n);
    var core := Core(s, digits);
    var body := |mark| + core;
    var total := Larger(s.width, body);
    var pad := total - body;
    PlainIs(s, n);
    MarkIs(s, n);
    CoreIs(s, n);
    DigitsPartIs(s, n);
    front, zeros, back := 0, core - |digits|, 0;
    PadIs(s.width, body);
    NoPad(s.width - body);
    if s.left {
      back := pad;
      ShapeLeft(mark, zeros, digits, back);
    } else if s.zero && s.precision.None? {
      zeros := zeros + pad;
      ShapeZeros(mark, pad, core - |digits|, digits);
    } else {
      front := pad;
      ShapeRight(mark, zeros, digits, front);
    }
  }

  lemma PadIs(width: nat, body: nat)
    ensures Repeat(' ', width - body) == Repeat(' ', Larger(width, body) - body)
    ensures Repeat('0', width - body) == Repeat('0', Larger(width, body) - body)
  {}

  lemma NoPad(n: int)
    ensures Repeat(' ', 0) == ""
  {}

  lemma ShapeLeft(mark: string, zeros: nat, digits: string, back: nat)
    ensures Repeat(' ', 0) + mark + Repeat('0', zeros) + digits + Repeat(' ', back) == mark + (Repeat('0', zeros) + digits) + Repeat(' ', back)
  {
    NoPad(0);
    assert "" + mark == mark;
  }

  lemma ShapeRight(mark: string, zeros: nat, digits: string, front: nat)
    ensures Repeat(' ', front) + mark + Repeat('0', zeros) + digits + Repeat(' ', 0) == Repeat(' ', front) + mark + (Repeat('0', zeros) + digits)
  {
    hide Repeat;
    NoPad(0);
  }

  lemma ShapeZeros(mark: string, pad: nat, zeros: nat, digits: string)
    ensures Repeat(' ', 0) + mark + Repeat('0', zeros + pad) + digits + Repeat(' ', 0) == mark + Repeat('0', pad) + (Repeat('0', zeros) + digits)
  {
    assert Repeat('0', zeros + pad) == Repeat('0', pad) + Repeat('0', zeros);
    hide Repeat;
    NoPad(0);
  }

  /** A format that is one numeric conversion: what it puts out for any argument. */
  lemma NumberShape(s: Spec, v: int) returns (front: nat, zeros: nat, digits: string, back: nat)
    requires Writable(s) && IsNumber(s.conv) && s.width <= MAX_INT && (s.precision.Some? ==> s.precision.value <= MAX_INT)
    ensures Shape(Output("%" + SpecText(s), 0, [Num(v)], 0), s, Shown(s, v), front, zeros, digits, back)
  {
    hide Shape, NumberText, Shown, Output, SpecText;
    OneNumber(s, v);
    front, zeros, back := TextShape(s, Shown(s, v));
    digits := Plain(s, Shown(s, v));
  }

  /** The number shown is the argument cut to 32 bits, or 64 with `l`, with a sign for `d` only. */
  lemma ShownIs(s: Spec, v: int)
    ensures var n := Shown(s, v);
            if s.long then (v - n) % 0x1_0000_0000_0000_0000 == 0 &&
              if s.conv == 'd' then -0x8000_0000_0000_0000 <= n < 0x8000_0000_0000_0000 else 0 <= n < 0x1_0000_0000_0000_0000
            else (v - n) % 0x1_0000_0000 == 0 && if s.conv == 'd' then -0x8000_0000 <= n < 0x8000_0000 else 0 <= n < 0x1_0000_0000
  {}

  /** The first character that is no space. */
  function FirstInk(s: string): char {
    if |s| == 0 then ' ' else if s[0] != ' ' then s[0] else FirstInk(s[1..])
  }

  lemma {:induction false} SkipSpaces(n: nat, s: string)
    ensures FirstInk(Repeat(' ', n) + s) == FirstInk(s)
  {
    if n > 0 {
      assert (Repeat(' ', n) + s)[1..] == Repeat(' ', n - 1) + s;
      SkipSpaces(n - 1, s);
    } else {
      assert Repeat(' ', 0) + s == s;
    }
  }

  lemma InkOf(a: string, b: string)
    ensures |a| > 0 && a[0] != ' ' ==> FirstInk(a + b) == a[0]
    ensures |a| == 0 ==> FirstInk(a + b) == FirstInk(b)
    ensures a == " " ==> FirstInk(a + b) == FirstInk(b)
  {
    if |a| == 0 {
      assert a + b == b;
    }
    if a == " " {
      assert (a + b)[1..] == b;
    }
  }

  /** A minus sign is shown exactly for a negative `d`, a plus sign exactly for another one with the `+` flag. */
  lemma SignShown(s: Spec, v: int)
    requires Writable(s) && IsNumber(s.conv) && s.width <= MAX_INT && (s.precision.Some? ==> s.precision.value <= MAX_INT)
    ensures var ink := FirstInk(Output("%" + SpecText(s), 0, [Num(v)], 0));
            && (ink == '-' <==> s.conv == 'd' && Shown(s, v) < 0)
            && (ink == '+' <==> s.conv == 'd' && Shown(s, v) >= 0 && s.plus)
  {
    hide Output, SpecText, Shown, Shape, Core, DigitsOf, ValueOf;
    var front, zeros, digits, back := NumberShape(s, v);
    var out, n := Output("%" + SpecText(s), 0, [Num(v)], 0), Shown(s, v);
    ShapeInk(out, s, n, front, zeros, digits, back);
  }

  lemma ShapeInk(out: string, s: Spec, n: int, front: nat, zeros: nat, digits: string, back: nat)
    requires IsNumber(s.conv) && Shape(out, s, n, front, zeros, digits, back)
    ensures FirstInk(out) == '-' <==> s.conv == 'd' && n < 0
    ensures FirstInk(out) == '+' <==> s.conv == 'd' && n >= 0 && s.plus
  {
    hide ValueOf, FirstInk, Core;
    var mark, z, b := Mark(s, n), Repeat('0', zeros), Repeat(' ', back);
    assert out == Repeat(' ', front) + (mark + (z + (digits + b)));
    SkipSpaces(front, mark + (z + (digits + b)));
    InkOf(mark, z + (digits + b));
    InkOf(z, digits + b);
    InkOf(digits, b);
    SkipSpaces(back, "");
    assert b + "" == b;
    NoInk();
    assert |z| > 0 ==> z[0] == '0';
    assert |digits| > 0 ==> DigitOf(s.conv, digits[0]);
  }

  lemma NoInk()
    ensures FirstInk("") == ' '
  {}

  // ---- characters and strings ----

  /** `out` is `text` with spaces up to the width, on the side away from the text. */
  predicate Padded(out: string, s: Spec, text: string) {
    var pad := if s.width > |text| then s.width - |text| else 0;
    out == if s.left then text + Repeat(' ', pad) else Repeat(' ', pad) + text
  }

  /** `%s` shows a string up to its precision, nothing of a null pointer; `%c` one character, its argument cut to eight bits;
      `%%` a percent sign without an argument. */
  lemma TextConversions(s: Spec, t: string, v: int)
    requires Writable(s)
    ensures var fmt := "%" + SpecText(s);
            && (s.conv == 's' ==>
                  && Padded(Output(fmt, 0, [Text(Some(t))], 0), s,
                            if s.precision.Some? && s.precision.value < |t| then t[..s.precision.value] else t)
                  && Padded(Output(fmt, 0, [Text(None)], 0), s, ""))
            && (s.conv == 'c' ==> Padded(Output(fmt, 0, [Num(v)], 0), s, [(v % 256) as char]))
            && (s.conv == '%' ==> Padded(Output(fmt, 0, [], 0), s, "%"))
  {
    hide Output, SpecText, ReadSpec;
    OneConversion(s, [Text(Some(t))]);
    OneConversion(s, [Text(None)]);
    OneConversion(s, [Num(v)]);
    OneConversion(s, []);
    assert "" + "" == "";
    PadIs(s.width, |t|);
    if s.conv == 's' {
      PlainPadded(s, Shortened(s, Some(t)));
      PlainPadded(s, "");
    } else if s.conv == 'c' {
      PlainPadded(s, [CharOf(v)]);
    } else if s.conv == '%' {
      PlainPadded(s, "%");
    }
  }

  lemma PlainPadded(s: Spec, text: string)
    ensures Padded(PlainText(s, text), s, text)
  {
    PadIs(s.width, |text|);
  }

  lemma OneConversion(s: Spec, args: seq<Arg>)
    requires Writable(s)
    ensures Output("%" + SpecText(s), 0, args, 0) == ConversionText(s, [s.conv], args, 0)
  {
    hide ReadSpec, SpecText, ConversionText;
    var text := SpecText(s);
    var fmt := "%" + text;
    assert Here(fmt, 1, text) && |fmt| == |text| + 1;
    LastIs(s);
    ReadWritten(fmt, 1, s, args, 0);
    OutputStep(fmt, 0, args, 0);
    Ending(ConversionText(s, [s.conv], args, 0));
  }

  lemma LastIs(s: Spec)
    requires Writable(s)
    ensures var text := SpecText(s); |text| > 0 && text[|text| - 1..] == [s.conv]
  {
    hide FlagText, WidthText, PrecisionText;
  }

  // ---- pointers ----

  /** A minus sign and `0x` at the beginning of what the system prints for a pointer. */
  function Prefix(t: string): (n: nat)
    ensures n <= |t|
  {
    var n := if "-" <= t then 1 else 0;
    if "0x" <= t[n..] || "0X" <= t[n..] then n + 2 else n
  }

  /** `out` is what the system prints, with zeros behind its prefix up to the precision, in its field. */
  predicate PointerShape(out: string, s: Spec, t: string, front: nat, zeros: nat, back: nat) {
    var n := Prefix(t);
    var least := if s.precision.Some? then s.precision.value else 1;
    var more := Larger(least, |t| - n) - (|t| - n);
    var total := Larger(s.width, |t| + more);
    && out == Repeat(' ', front) + t[..n] + Repeat('0', zeros) + t[n..] + Repeat(' ', back)
    && if s.left then front == 0 && zeros == more && back == total - |t| - more
       else if s.zero && s.precision.None? then front == 0 && zeros == total - |t| && back == 0
       else front == total - |t| - more && zeros == more && back == 0
  }

  lemma PrefixIs(t: string)
    ensures Prefix(t) == Marks(t)
  {
    var n := if |t| > 0 && t[0] == '-' then 1 else 0;
    assert "-" <= t <==> n == 1;
    var r := t[n..];
    assert |r| >= 2 ==> r[..2] == [r[0], r[1]];
    assert ("0x" <= r || "0X" <= r) <==> |r| >= 2 && r[0] == '0' && (r[1] == 'x' || r[1] == 'X');
  }

  /** `%p` shows what the system prints, nothing for a null pointer with precision 0. */
  lemma PointerConversion(s: Spec, isNull: bool, shown: string) returns (front: nat, zeros: nat, back: nat)
    requires Writable(s) && s.conv == 'p'
    ensures var t := if isNull && s.precision == Some(0) then "" else shown;
            PointerShape(Output("%" + SpecText(s), 0, [Pointer(isNull, shown)], 0), s, t, front, zeros, back)
  {
    hide Output, SpecText, ConversionText, PointerShape, PointerText;
    var a, t := Pointer(isNull, shown), if isNull && s.precision == Some(0) then "" else shown;
    OneConversion(s, [a]);
    PointerIs(s, a);
    front, zeros, back := PointerTextShape(s, t);
  }

  lemma PointerIs(s: Spec, a: Arg)
    requires s.conv == 'p' && a.Pointer?
    ensures ConversionText(s, [s.conv], [a], 0) == PointerText(s, if a.isNull && s.precision == Some(0) then "" else a.shown)
  {
    hide PointerText;
  }

  lemma PointerTextShape(s: Spec, t: string) returns (front: nat, zeros: nat, back: nat)
    ensures PointerShape(PointerText(s, t), s, t, front, zeros, back)
  {
    hide Repeat, Marks, Prefix;
    PrefixIs(t);
    var mark, rest := t[..Prefix(t)], t[Prefix(t)..];
    var more := Larger(Least(s), |rest|) - |rest|;
    var pad := Larger(s.width, |t| + more) - (|t| + more);
    front, zeros, back := 0, more, 0;
    MorePad(Least(s), |rest|);
    PadIs(s.width, |t| + more);
    if s.left {
      back := pad;
      ShapeLeft(mark, zeros, rest, back);
    } else if s.zero && s.precision.None? {
      zeros := more + pad;
      ShapeZeros(mark, pad, more, rest);
    } else {
      front := pad;
      ShapeRight(mark, zeros, rest, front);
    }
  }

  lemma MorePad(least: nat, rest: nat)
    ensures Repeat('0', least - rest) == Repeat('0', Larger(least, rest) - rest)
  {}

  // ---- whole formats ----

  /** A part of a format: ordinary text, or a conversion with its argument. */
  datatype Part = Plainly(text: string) | Converted(spec: Spec, arg: Arg)

  predicate PartOk(part: Part) {
    match part
    case Plainly(text) => '%' !in text
    case Converted(spec, _) => Writable(spec)
  }

  function PartText(part: Part): string {
    match part
    case Plainly(text) => text
    case Converted(spec, _) => "%" + SpecText(spec)
  }

  /** The arguments a part takes: `%%` takes none. */
  function PartArgs(part: Part): seq<Arg> {
    match part
    case Plainly(_) => []
    case Converted(spec, arg) => if spec.conv == '%' then [] else [arg]
  }

  predicate PartsOk(parts: seq<Part>) {
    forall i :: 0 <= i < |parts| ==> PartOk(parts[i])
  }

  function FormatOf(parts: seq<Part>): string {
    if |parts| == 0 then "" else PartText(parts[0]) + FormatOf(parts[1..])
  }

  function ArgsOf(parts: seq<Part>): seq<Arg> {
    if |parts| == 0 then [] else PartArgs(parts[0]) + ArgsOf(parts[1..])
  }

  /** What each part puts out by itself, one behind the other. */
  function Separately(parts: seq<Part>): string {
    if |parts| == 0 then ""
    else
      (match parts[0]
       case Plainly(text) => text
       case Converted(_, _) => Output(PartText(parts[0]), 0, PartArgs(parts[0]), 0)) + Separately(parts[1..])
  }

  /** Each part of a format takes its own arguments, in order, and adds its own text. */
  lemma FormatParts(parts: seq<Part>)
    requires PartsOk(parts)
    ensures Output(FormatOf(parts), 0, ArgsOf(parts), 0) == Separately(parts)
  {
    hide Output, FormatOf, Separately, ArgsOf;
    var fmt := FormatOf(parts);
    assert fmt[0..] == fmt && ArgsOf(parts)[0..] == ArgsOf(parts);
    PartsFrom(parts, fmt, 0, ArgsOf(parts), 0);
  }

  lemma {:induction false} PartsFrom(parts: seq<Part>, fmt: string, p: nat, args: seq<Arg>, k: nat)
    requires PartsOk(parts) && p <= |fmt| && fmt[p..] == FormatOf(parts) && k <= |args| && args[k..] == ArgsOf(parts)
    ensures Output(fmt, p, args, k) == Separately(parts)
    decreases |parts|
  {
    hide Output, PartText, PartArgs;
    if |parts| == 0 {
      OutputEnd(fmt, args, k);
    } else {
      var rest := parts[1..];
      var text, own := PartText(parts[0]), PartArgs(parts[0]);
      var q, m := p + |text|, k + |own|;
      assert fmt[p..][..|text|] == text && fmt[p..][|text|..] == FormatOf(rest);
      assert fmt[p..q] == text && fmt[q..] == FormatOf(rest);
      assert args[k..][..|own|] == own && args[k..][|own|..] == ArgsOf(rest);
      assert args[m..] == ArgsOf(rest) && args[k..m] == own;
      PartsFrom(rest, fmt, q, args, m);
      match parts[0]
      case Plainly(t) =>
        PlainPart(t);
        CopyRun(fmt, p, q, args, k);
      case Converted(spec, arg) =>
        PartIs(spec, arg);
        ConvertedPart(fmt, p, spec, arg, args, k);
    }
  }

  lemma OutputEnd(fmt: string, args: seq<Arg>, k: nat)
    ensures Output(fmt, |fmt|, args, k) == ""
  {}

  lemma PartIs(s: Spec, arg: Arg)
    ensures PartText(Converted(s, arg)) == "%" + SpecText(s)
  {}

  lemma PlainPart(t: string)
    ensures PartText(Plainly(t)) == t && PartArgs(Plainly(t)) == []
  {}

  lemma ConvertedPart(fmt: string, p: nat, s: Spec, arg: Arg, args: seq<Arg>, k: nat)
    requires Writable(s) && p + |SpecText(s)| + 1 <= |fmt| && fmt[p..p + |SpecText(s)| + 1] == "%" + SpecText(s)
    requires var own := PartArgs(Converted(s, arg)); k + |own| <= |args| && args[k..k + |own|] == own
    ensures var part := Converted(s, arg);
            && |PartText(part)| == |SpecText(s)| + 1
            && Output(fmt, p, args, k) ==
               Output(PartText(part), 0, PartArgs(part), 0) + Output(fmt, p + |SpecText(s)| + 1, args, k + |PartArgs(part)|)
  {
    hide Output, SpecText, ReadSpec, ConversionText, PartArgs, Here;
    var text := SpecText(s);
    SpecHere(fmt, p, s);
    ReadWritten(fmt, p + 1, s, args, k);
    OutputStep(fmt, p, args, k);
    OneConversion(s, PartArgs(Converted(s, arg)));
    SameText(s, arg, args, k);
    ArgTaken(s, arg);
  }

  lemma ArgTaken(s: Spec, arg: Arg)
    requires Writable(s)
    ensures |PartArgs(Converted(s, arg))| == if TakesArg(s.conv) then 1 else 0
  {}

  lemma SpecHere(fmt: string, p: nat, s: Spec)
    requires Writable(s) && p + |SpecText(s)| + 1 <= |fmt| && fmt[p..p + |SpecText(s)| + 1] == "%" + SpecText(s)
    ensures var q := p + |SpecText(s)|; q > p && fmt[p] == '%' && Here(fmt, p + 1, SpecText(s)) && fmt[q..q + 1] == [s.conv]
  {
    hide SpecText;
    var text := SpecText(s);
    var all := fmt[p..p + |text| + 1];
    LastIs(s);
    assert fmt[p] == all[0];
    assert fmt[p + 1..p + 1 + |text|] == all[1..] == text;
    assert fmt[p + |text|] == all[|text|] == text[|text| - 1..][0];
  }

  /** A conversion looks only at its own argument. */
  lemma SameText(s: Spec, arg: Arg, args: seq<Arg>, k: nat)
    requires Writable(s)
    requires var own := PartArgs(Converted(s, arg)); k + |own| <= |args| && args[k..k + |own|] == own
    ensures ConversionText(s, [s.conv], args, k) == ConversionText(s, [s.conv], PartArgs(Converted(s, arg)), 0)
    ensures TakesArg(s.conv) <==> |PartArgs(Converted(s, arg))| == 1
  {
    hide NumberText, PlainText, PointerText, Shown, ShownPointer, Shortened;
    if s.conv != '%' {
      assert args[k] == args[k..k + 1][0] == arg;
    }
  }

  // ---- other ways to write a conversion ----

  /** The ways to write the length and the conversion: `h` changes nothing, `ll` is `l`, `i` is `d`, and `D`, `U` and `O` have
      their `l` with them. */
  predicate TailOf(tail: string, s: Spec) {
    || tail == Tail(s)
    || (!s.long && tail == ['h', s.conv]) || (s.long && tail == ['l', 'l', s.conv])
    || (s.conv == 'd' && tail == (if s.long then "li" else "i"))
    || (s.long && ((s.conv == 'd' && tail == "D") || (s.conv == 'u' && tail == "U") || (s.conv == 'o' && tail == "O")))
  }

  /** Width and precision are written out, or taken from the arguments. */
  function AnyText(s: Spec, starWidth: bool, starPrecision: bool, tail: string): string {
    FlagText(s) + ((if starWidth then "*" else WidthText(s)) + ((if starPrecision then ".*" else PrecisionText(s)) + tail))
  }

  /** The specification meant, with the arguments `w` and `j` for the stars. */
  function Meant(s: Spec, starWidth: bool, starPrecision: bool, w: int, j: int): Spec {
    WithPrecision(WithWidth(s, starWidth, w, s.width), starPrecision, j, s.precision)
  }

  /** A negative width asks for the left side, a negative precision is none. */
  function WithWidth(s: Spec, star: bool, w: int, width: nat): Spec {
    if !star then s.(width := width) else if w < 0 then s.(width := -w, left := true) else s.(width := w)
  }

  function WithPrecision(s: Spec, star: bool, j: int, precision: Option<nat>): Spec {
    s.(precision := if !star then precision else if j < 0 then None else Some(j))
  }

  function StarArgs(starWidth: bool, starPrecision: bool, w: int, j: int): seq<Arg> {
    (if starWidth then [Num(w)] else []) + if starPrecision then [Num(j)] else []
  }

  lemma TailRead(fmt: string, p: nat, s: Spec, c: Spec, tail: string)
    requires Writable(s) && TailOf(tail, s) && Here(fmt, p, tail) && !c.long
    ensures var l := Length(fmt, p, c);
            |tail| > 0 && l.1 == p + |tail| - 1 < |fmt| && Conversion(Peek(fmt, l.1), l.0) == c.(long := s.long, conv := s.conv)
  {
    var t := fmt[p..p + |tail|];
    assert fmt[p] == t[0];
    if |tail| >= 2 {
      assert fmt[p + 1] == t[1];
    }
    if |tail| == 3 {
      assert fmt[p + 2] == t[2];
    }
  }

  lemma TailStarts(s: Spec, tail: string)
    requires Writable(s) && TailOf(tail, s)
    ensures |tail| > 0 && !IsFlag(tail[0]) && !IsDigit(tail[0]) && tail[0] != '.' && tail[0] != '*'
  {}

  /** No part begins like the one before it could go on. */
  lemma AnyStarts(s: Spec, starWidth: bool, starPrecision: bool, tail: string)
    requires Writable(s) && TailOf(tail, s)
    ensures var rest := (if starPrecision then ".*" else PrecisionText(s)) + tail;
            && |rest| > 0 && !IsFlag(rest[0]) && !IsDigit(rest[0]) && rest[0] != '*'
            && var all := (if starWidth then "*" else WidthText(s)) + rest; |all| > 0 && !IsFlag(all[0])
  {
    hide Digits, TailOf;
    TailStarts(s, tail);
    if s.width > 0 {
      FirstDigit(s.width);
    }
  }

  /** However it is written, the specification meant is read, and its stars take their arguments first. */
  lemma ReadAny(fmt: string, p: nat, s: Spec, starWidth: bool, starPrecision: bool, tail: string, args: seq<Arg>, k: nat, w: int, j: int)
    requires Writable(s) && TailOf(tail, s) && Here(fmt, p, AnyText(s, starWidth, starPrecision, tail))
    requires var stars := StarArgs(starWidth, starPrecision, w, j); k + |stars| <= |args| && args[k..k + |stars|] == stars
    ensures ReadSpec(fmt, p, args, k) == Parsed(Meant(s, starWidth, starPrecision, w, j), p + |AnyText(s, starWidth, starPrecision, tail)| - 1,
                                                k + |StarArgs(starWidth, starPrecision, w, j)|)
  {
    hide FlagText, WidthText, PrecisionText, Flags, TailOf, Here, Length, Conversion, Width, Precision, FlagsOf, ReadSpec, StarArgs, SetFlag,
      AnyText, IsFlag, IsDigit, Peek, IntArg, Writable, Tail, Meant;
    AnyPlaces(fmt, p, s, starWidth, starPrecision, tail);
    FlagsPlain(s);
    StarsAre(args, k, starWidth, starPrecision, w, j);
    var f := FlagsOf(s);
    var p1 := p + |FlagText(s)|;
    FlagsRead(fmt, p, s);
    var t, p2, m := AnyWidth(fmt, p1, s, f, starWidth, args, k, w);
    var c, p3 := AnyPrecision(fmt, p2, s, t, starPrecision, args, m, j);
    TailRead(fmt, p3, s, c, tail);
    MeantIs(s, f, t, c, starWidth, starPrecision, w, j);
    Compose(fmt, p, args, k, f, t, c, m, if starPrecision then m + 1 else m, p1, p2, p3);
  }

  lemma MeantIs(s: Spec, f: Spec, t: Spec, c: Spec, starWidth: bool, starPrecision: bool, w: int, j: int)
    requires f == FlagsOf(s) && t == WithWidth(f, starWidth, w, s.width) && c == WithPrecision(t, starPrecision, j, s.precision)
    ensures c.(long := s.long, conv := s.conv) == Meant(s, starWidth, starPrecision, w, j)
  {
    hide FlagsOf, WithWidth, WithPrecision;
    FlagsWithout(s);
    WidthAlone(s, starWidth, w);
    var t' := WithWidth(s, starWidth, w, s.width);
    PrecisionAlone(t', starPrecision, j, s.precision, s.long, s.conv);
    WidthKeeps(s, starWidth, w);
    assert t'.(long := s.long, conv := s.conv) == t';
  }

  lemma FlagsWithout(s: Spec)
    ensures FlagsOf(s) == s.(width := 0, precision := None, long := false, conv := '\0')
  {}

  lemma WidthAlone(s: Spec, star: bool, w: int)
    ensures WithWidth(s.(width := 0, precision := None, long := false, conv := '\0'), star, w, s.width) ==
            WithWidth(s, star, w, s.width).(precision := None, long := false, conv := '\0')
  {
    if star {
      if w < 0 {
        assert WithWidth(s, star, w, s.width) == s.(width := -w, left := true);
      } else {
        assert WithWidth(s, star, w, s.width) == s.(width := w);
      }
    }
  }

  lemma WidthKeeps(s: Spec, star: bool, w: int)
    ensures WithWidth(s, star, w, s.width).long == s.long && WithWidth(s, star, w, s.width).conv == s.conv
  {}

  lemma PrecisionAlone(t: Spec, star: bool, j: int, precision: Option<nat>, long: bool, conv: char)
    ensures WithPrecision(t.(precision := None, long := false, conv := '\0'), star, j, precision).(long := long, conv := conv) ==
            WithPrecision(t.(long := long, conv := conv), star, j, precision)
  {}

  lemma AnyWidth(fmt: string, p: nat, s: Spec, f: Spec, starWidth: bool, args: seq<Arg>, k: nat, w: int) returns (t: Spec, q: nat, m: nat)
    requires Writable(s) && f.width == 0 && Here(fmt, p, if starWidth then "*" else WidthText(s)) && (starWidth ==> IntArg(args, k) == w)
    requires !starWidth ==> !IsDigit(Peek(fmt, p + |WidthText(s)|)) && Peek(fmt, p + |WidthText(s)|) != '*'
    ensures q == p + (if starWidth then 1 else |WidthText(s)|) <= |fmt| && m == if starWidth then k + 1 else k
    ensures t == WithWidth(f, starWidth, w, s.width)
    ensures Width(fmt, p, f, args, k) == Parsed(t, q, m)
  {
    hide Width, WidthText, IsDigit, Peek;
    t := WithWidth(f, starWidth, w, s.width);
    q, m := p + if starWidth then 1 else |WidthText(s)|, if starWidth then k + 1 else k;
    if starWidth {
      StarWidth(fmt, p, f, args, k, w);
    } else {
      WidthRead(fmt, p, s, f, args, k);
    }
  }

  lemma AnyPrecision(fmt: string, p: nat, s: Spec, t: Spec, starPrecision: bool, args: seq<Arg>, k: nat, j: int) returns (c: Spec, q: nat)
    requires Writable(s) && t.precision.None? && Here(fmt, p, if starPrecision then ".*" else PrecisionText(s)) && (starPrecision ==> IntArg(args, k) == j)
    requires !starPrecision ==> !IsDigit(Peek(fmt, p + |PrecisionText(s)|)) && Peek(fmt, p + |PrecisionText(s)|) != '.'
    ensures q == p + (if starPrecision then 2 else |PrecisionText(s)|) <= |fmt|
    ensures c == WithPrecision(t, starPrecision, j, s.precision)
    ensures Precision(fmt, p, t, args, k) == Parsed(c, q, if starPrecision then k + 1 else k)
  {
    hide Precision, PrecisionText, IsDigit, Peek;
    c := WithPrecision(t, starPrecision, j, s.precision);
    q := p + if starPrecision then 2 else |PrecisionText(s)|;
    if starPrecision {
      StarPrecision(fmt, p, t, args, k, j);
    } else {
      PrecisionRead(fmt, p, s, t, args, k);
    }
  }

  /** Where the parts lie, and what stands behind each. */
  lemma AnyPlaces(fmt: string, p: nat, s: Spec, starWidth: bool, starPrecision: bool, tail: string)
    requires Writable(s) && TailOf(tail, s) && Here(fmt, p, AnyText(s, starWidth, starPrecision, tail))
    ensures var width, precision := if starWidth then "*" else WidthText(s), if starPrecision then ".*" else PrecisionText(s);
            var p1 := p + |FlagText(s)|;
            var p2 := p1 + |width|;
            var p3 := p2 + |precision|;
            && Here(fmt, p, FlagText(s)) && Here(fmt, p1, width) && Here(fmt, p2, precision) && Here(fmt, p3, tail)
            && !IsFlag(Peek(fmt, p1)) && !IsDigit(Peek(fmt, p2)) && Peek(fmt, p2) != '*'
            && !IsDigit(Peek(fmt, p3)) && Peek(fmt, p3) != '.'
            && |AnyText(s, starWidth, starPrecision, tail)| == p3 + |tail| - p && |tail| > 0
  {
    hide FlagText, WidthText, PrecisionText, TailOf, Here, IsFlag, IsDigit, Peek;
    var width, precision := if starWidth then "*" else WidthText(s), if starPrecision then ".*" else PrecisionText(s);
    AnyStarts(s, starWidth, starPrecision, tail);
    TailStarts(s, tail);
    Behind1(fmt, p, FlagText(s), width + (precision + tail));
    Behind1(fmt, p + |FlagText(s)|, width, precision + tail);
    Behind1(fmt, p + |FlagText(s)| + |width|, precision, tail);
  }

  /** What is read, part by part. */
  lemma Compose(fmt: string, p: nat, args: seq<Arg>, k: nat, f: Spec, w: Spec, c: Spec, k1: nat, k2: nat, p1: nat, p2: nat, p3: nat)
    requires p <= p1 <= p2 <= p3 <= |fmt| && Flags(fmt, p, PLAIN) == (f, p1)
    requires Width(fmt, p1, f, args, k) == Parsed(w, p2, k1) && Precision(fmt, p2, w, args, k1) == Parsed(c, p3, k2)
    ensures var l := Length(fmt, p3, c); ReadSpec(fmt, p, args, k) == Parsed(Conversion(Peek(fmt, l.1), l.0), l.1, k2)
  {
    hide Flags, Width, Precision, Length, Conversion;
  }

  lemma FlagsPlain(s: Spec)
    requires Writable(s)
    ensures var f := FlagsOf(s);
            && f.width == 0 && f.precision.None? && !f.long && (s.plus ==> s.sign)
            && f.(width := s.width, precision := s.precision, long := s.long, conv := s.conv) == s
  {}

  lemma StarsAre(args: seq<Arg>, k: nat, starWidth: bool, starPrecision: bool, w: int, j: int)
    requires var stars := StarArgs(starWidth, starPrecision, w, j); k + |stars| <= |args| && args[k..k + |stars|] == stars
    ensures |StarArgs(starWidth, starPrecision, w, j)| == (if starWidth then 1 else 0) + if starPrecision then 1 else 0
    ensures starWidth ==> IntArg(args, k) == w
    ensures starPrecision ==> IntArg(args, if starWidth then k + 1 else k) == j
  {
    var stars := StarArgs(starWidth, starPrecision, w, j);
    var part := args[k..k + |stars|];
    assert forall i :: 0 <= i < |stars| ==> args[k + i] == part[i];
    assert |stars| > 0 ==> args[k + 0] == stars[0];
  }

  lemma StarWidth(fmt: string, p: nat, f: Spec, args: seq<Arg>, k: nat, w: int)
    requires Here(fmt, p, "*") && IntArg(args, k) == w
    ensures Width(fmt, p, f, args, k) == Parsed(if w < 0 then f.(width := -w, left := true) else f.(width := w), p + 1, k + 1)
  {
    HereFirst(fmt, p, "*");
  }

  lemma StarPrecision(fmt: string, p: nat, f: Spec, args: seq<Arg>, k: nat, j: int)
    requires Here(fmt, p, ".*") && IntArg(args, k) == j
    ensures Precision(fmt, p, f, args, k) == Parsed(if j < 0 then f else f.(precision := Some(j)), p + 2, k + 1)
  {
    assert fmt[p] == fmt[p..p + 2][0] && fmt[p + 1] == fmt[p..p + 2][1];
  }

  /** A conversion written in any of these ways puts out what the specification meant does, with the argument behind those of
      the stars. */
  lemma AnyOutput(s: Spec, starWidth: bool, starPrecision: bool, tail: string, w: int, j: int, arg: Arg)
    requires Writable(s) && TailOf(tail, s) && Writable(Meant(s, starWidth, starPrecision, w, j)) && (s.conv == '%' ==> tail == "%")
    ensures var meant, stars := Meant(s, starWidth, starPrecision, w, j), StarArgs(starWidth, starPrecision, w, j);
            var own := PartArgs(Converted(s, arg));
            Output("%" + AnyText(s, starWidth, starPrecision, tail), 0, stars + own, 0) == Output("%" + SpecText(meant), 0, own, 0)
  {
    hide Output, SpecText, ReadSpec, AnyText, ConversionText, PartArgs, StarArgs, TailOf;
    var meant, stars := Meant(s, starWidth, starPrecision, w, j), StarArgs(starWidth, starPrecision, w, j);
    var own := PartArgs(Converted(s, arg));
    var text := AnyText(s, starWidth, starPrecision, tail);
    var fmt, args := "%" + text, stars + own;
    assert Here(fmt, 1, text) && args[0..0 + |stars|] == stars;
    ReadAny(fmt, 1, s, starWidth, starPrecision, tail, args, 0, w, j);
    AnyLast(s, starWidth, starPrecision, tail);
    OutputStep(fmt, 0, args, 0);
    OutputEnd(fmt, args, |stars| + if TakesArg(meant.conv) then 1 else 0);
    OneConversion(meant, own);
    AnyChar(meant, fmt[|fmt| - 1..|fmt|], args, |stars|);
    MeantConv(s, starWidth, starPrecision, w, j);
    assert args[|stars|..|stars| + |own|] == own;
    OwnArgs(s, meant, arg);
    SameText(meant, arg, args, |stars|);
    Ending(ConversionText(meant, [meant.conv], args, |stars|));
  }

  lemma OwnArgs(s: Spec, t: Spec, arg: Arg)
    requires s.conv == t.conv
    ensures PartArgs(Converted(s, arg)) == PartArgs(Converted(t, arg))
  {}

  lemma MeantConv(s: Spec, starWidth: bool, starPrecision: bool, w: int, j: int)
    ensures Meant(s, starWidth, starPrecision, w, j).conv == s.conv
  {}

  lemma AnyLast(s: Spec, starWidth: bool, starPrecision: bool, tail: string)
    requires Writable(s) && TailOf(tail, s)
    ensures |AnyText(s, starWidth, starPrecision, tail)| > 0
  {
    hide FlagText, WidthText, PrecisionText;
  }

  /** For a known conversion the character itself does not matter. */
  lemma AnyChar(s: Spec, c: string, args: seq<Arg>, k: nat)
    requires KnownConversion(s.conv)
    ensures ConversionText(s, c, args, k) == ConversionText(s, [s.conv], args, k)
  {
    hide NumberText, PlainText, PointerText, Shown, ShownPointer, Shortened;
  }
}
