/** Conversion specifications written out and read back. */
module FormatRoundTrip {
  import opened FormatSpec
  import opened Snprintf

  function Opt(on: bool, c: char): string {
    if on then [c] else ""
  }

  function FlagText(s: Spec): string {
    Opt(s.zero, '0') + Opt(s.left, '-') + Opt(s.sign, if s.plus then '+' else ' ') + Opt(s.alt, '#')
  }

  /** A width of 0 is left out: its digit would be a flag. */
  function WidthText(s: Spec): string {
    if s.width == 0 then "" else Digits(s.width, 10, false)
  }

  function PrecisionText(s: Spec): string {
    if s.precision.None? then "" else "." + Digits(s.precision.value, 10, false)
  }

  function SpecText(s: Spec): string {
    FlagText(s) + WidthText(s) + PrecisionText(s) + Opt(s.long, 'l') + [s.conv]
  }

  predicate KnownConversion(c: char) {
    IsNumber(c) || c == 'c' || c == 's' || c == 'p' || c == '%'
  }

  /** What can be written: numbers that an unsigned int holds, and `+` only as a sign. */
  predicate Writable(s: Spec) {
    && s.width < 0x1_0000_0000 && (s.precision.Some? ==> s.precision.value < 0x1_0000_0000)
    && (s.plus ==> s.sign) && KnownConversion(s.conv)
  }

  /** `s` stands in the format from `p` on. */
  predicate Here(fmt: string, p: nat, s: string) {
    p + |s| <= |fmt| && fmt[p..p + |s|] == s
  }

  lemma HereSplit(fmt: string, p: nat, a: string, b: string)
    requires Here(fmt, p, a + b)
    ensures Here(fmt, p, a) && Here(fmt, p + |a|, b)
  {
    var s := fmt[p..p + |a + b|];
    assert s[..|a|] == a && s[|a|..] == b;
  }

  lemma HereFirst(fmt: string, p: nat, s: string)
    requires Here(fmt, p, s) && |s| > 0
    ensures fmt[p] == s[0]
  {
    assert fmt[p..p + |s|][0] == fmt[p];
  }

  // ---- numbers ----

  /** Reading the digits of `v` from left to right leaves `v`. */
  lemma {:induction false} NumberTo(fmt: string, p: nat, v: nat)
    requires v < 0x1_0000_0000 && Here(fmt, p, Digits(v, 10, false))
    ensures Number(fmt, p, 0) == Number(fmt, p + |Digits(v, 10, false)|, v)
    decreases v
  {
    hide Digits;
    DigitsStep(v, 10, false);
    if v < 10 {
      DigitStep(fmt, p, 0, v);
    } else {
      var front := Digits(v / 10, 10, false);
      HereSplit(fmt, p, front, [DigitChar(v % 10, false)]);
      NumberTo(fmt, p, v / 10);
      DigitStep(fmt, p + |front|, v / 10, v % 10);
    }
  }

  lemma DigitStep(fmt: string, p: nat, u: nat, d: nat)
    requires d < 10 && Here(fmt, p, [DigitChar(d, false)]) && 10 * u + d < 0x1_0000_0000
    ensures Number(fmt, p, u) == Number(fmt, p + 1, 10 * u + d)
  {
    HereFirst(fmt, p, [DigitChar(d, false)]);
  }

  lemma NumberRead(fmt: string, p: nat, v: nat)
    requires v < 0x1_0000_0000 && Here(fmt, p, Digits(v, 10, false)) && !IsDigit(Peek(fmt, p + |Digits(v, 10, false)|))
    ensures Number(fmt, p, 0) == (v, p + |Digits(v, 10, false)|)
  {
    hide Digits;
    NumberTo(fmt, p, v);
  }

  // ---- flags ----

  lemma OneFlag(fmt: string, p: nat, s: Spec, on: bool, c: char, next: Spec)
    requires IsFlag(c) && Here(fmt, p, Opt(on, c)) && next == if on then SetFlag(s, c) else s
    ensures Flags(fmt, p, s) == Flags(fmt, p + |Opt(on, c)|, next)
  {
    if on {
      HereFirst(fmt, p, [c]);
    }
  }

  lemma FlagsEnd(fmt: string, p: nat, s: Spec)
    requires !IsFlag(Peek(fmt, p))
    ensures Flags(fmt, p, s) == (s, p)
  {}

  /** The flags alone. */
  function FlagsOf(s: Spec): Spec {
    PLAIN.(zero := s.zero, left := s.left, sign := s.sign, plus := s.plus, alt := s.alt)
  }

  lemma FlagsRead(fmt: string, p: nat, s: Spec)
    requires Here(fmt, p, FlagText(s)) && (s.plus ==> s.sign) && !IsFlag(Peek(fmt, p + |FlagText(s)|))
    ensures Flags(fmt, p, PLAIN) == (FlagsOf(s), p + |FlagText(s)|)
  {
    hide *;
    FlagsHere(fmt, p, s);
    FlagSteps(s);
    var mark := if s.plus then '+' else ' ';
    var p1 := p + |Opt(s.zero, '0')|;
    var p2 := p1 + |Opt(s.left, '-')|;
    var p3 := p2 + |Opt(s.sign, mark)|;
    var s0 := PLAIN.(zero := s.zero);
    var s1 := s0.(left := s.left);
    var s2 := s1.(sign := s.sign, plus := s.plus);
    OneFlag(fmt, p, PLAIN, s.zero, '0', s0);
    OneFlag(fmt, p1, s0, s.left, '-', s1);
    OneFlag(fmt, p2, s1, s.sign, mark, s2);
    OneFlag(fmt, p3, s2, s.alt, '#', FlagsOf(s));
    FlagsEnd(fmt, p + |FlagText(s)|, FlagsOf(s));
  }

  lemma FlagsHere(fmt: string, p: nat, s: Spec)
    requires Here(fmt, p, FlagText(s))
    ensures var zero, left, sign, alt := Opt(s.zero, '0'), Opt(s.left, '-'), Opt(s.sign, if s.plus then '+' else ' '), Opt(s.alt, '#');
            && Here(fmt, p, zero) && Here(fmt, p + |zero|, left) && Here(fmt, p + |zero| + |left|, sign)
            && Here(fmt, p + |zero| + |left| + |sign|, alt) && |FlagText(s)| == |zero| + |left| + |sign| + |alt|
  {
    hide Here, Opt;
    var zero, left, sign, alt := Opt(s.zero, '0'), Opt(s.left, '-'), Opt(s.sign, if s.plus then '+' else ' '), Opt(s.alt, '#');
    HereSplit(fmt, p, zero + left + sign, alt);
    HereSplit(fmt, p, zero + left, sign);
    HereSplit(fmt, p, zero, left);
  }

  lemma FlagSteps(s: Spec)
    requires s.plus ==> s.sign
    ensures IsFlag('0') && IsFlag('-') && IsFlag('+') && IsFlag(' ') && IsFlag('#')
    ensures var s0 := PLAIN.(zero := s.zero);
            var s1 := s0.(left := s.left);
            var s2 := s1.(sign := s.sign, plus := s.plus);
            && s0 == (if s.zero then SetFlag(PLAIN, '0') else PLAIN) && s1 == (if s.left then SetFlag(s0, '-') else s0)
            && s2 == (if s.sign then SetFlag(s1, if s.plus then '+' else ' ') else s1)
            && FlagsOf(s) == if s.alt then SetFlag(s2, '#') else s2
  {}

  // ---- whole specifications ----

  function Tail(s: Spec): string {
    Opt(s.long, 'l') + [s.conv]
  }

  /** No part begins like the one before it could go on. */
  lemma Starts(s: Spec)
    requires Writable(s)
    ensures var c := (PrecisionText(s) + Tail(s))[0]; !IsFlag(c) && !IsDigit(c) && c != '*'
    ensures !IsFlag((WidthText(s) + (PrecisionText(s) + Tail(s)))[0])
    ensures !IsDigit(Tail(s)[0]) && Tail(s)[0] != '.'
  {
    hide Digits;
    if s.width > 0 {
      FirstDigit(s.width);
    }
  }

  lemma {:induction false} FirstDigit(v: nat)
    ensures IsDigit(Digits(v, 10, false)[0]) && (v > 0 ==> Digits(v, 10, false)[0] != '0')
    decreases v
  {
    DigitsStep(v, 10, false);
    if v >= 10 {
      FirstDigit(v / 10);
    }
  }

  /** The character behind a part is the first one of what follows. */
  lemma Behind1(fmt: string, p: nat, a: string, b: string)
    requires Here(fmt, p, a + b) && |b| > 0
    ensures Here(fmt, p, a) && Here(fmt, p + |a|, b) && Peek(fmt, p + |a|) == b[0]
  {
    HereSplit(fmt, p, a, b);
    HereFirst(fmt, p + |a|, b);
  }

  lemma WidthRead(fmt: string, p: nat, s: Spec, flags: Spec, args: seq<Arg>, k: nat)
    requires Writable(s) && Here(fmt, p, WidthText(s)) && flags.width == 0
    requires !IsDigit(Peek(fmt, p + |WidthText(s)|)) && Peek(fmt, p + |WidthText(s)|) != '*'
    ensures Width(fmt, p, flags, args, k) == Parsed(flags.(width := s.width), p + |WidthText(s)|, k)
  {
    hide Digits;
    if s.width > 0 {
      FirstDigit(s.width);
      HereFirst(fmt, p, WidthText(s));
      NumberRead(fmt, p, s.width);
    }
  }

  lemma PrecisionRead(fmt: string, p: nat, s: Spec, w: Spec, args: seq<Arg>, k: nat)
    requires Writable(s) && Here(fmt, p, PrecisionText(s)) && w.precision.None?
    requires !IsDigit(Peek(fmt, p + |PrecisionText(s)|)) && Peek(fmt, p + |PrecisionText(s)|) != '.'
    ensures Precision(fmt, p, w, args, k) == Parsed(w.(precision := s.precision), p + |PrecisionText(s)|, k)
  {
    hide Digits;
    if s.precision.Some? {
      var digits := Digits(s.precision.value, 10, false);
      FirstDigit(s.precision.value);
      HereFirst(fmt, p, PrecisionText(s));
      HereSplit(fmt, p, ".", digits);
      HereFirst(fmt, p + 1, digits);
      NumberRead(fmt, p + 1, s.precision.value);
    }
  }

  lemma LengthRead(fmt: string, p: nat, s: Spec, c: Spec)
    requires Writable(s) && Here(fmt, p, Tail(s)) && !c.long
    ensures Length(fmt, p, c) == (c.(long := s.long), p + |Opt(s.long, 'l')|)
    ensures Peek(fmt, p + |Opt(s.long, 'l')|) == s.conv
  {
    Behind1(fmt, p, Opt(s.long, 'l'), [s.conv]);
    if s.long {
      HereFirst(fmt, p, ['l']);
    }
  }

  /** A specification written out is read back, wherever it stands in a format. */
  lemma ReadWritten(fmt: string, p: nat, s: Spec, args: seq<Arg>, k: nat)
    requires Writable(s) && Here(fmt, p, SpecText(s))
    ensures ReadSpec(fmt, p, args, k) == Parsed(s, p + |SpecText(s)| - 1, k)
  {
    hide *;
    Starts(s);
    var flags, width, precision, tail := FlagText(s), WidthText(s), PrecisionText(s), Tail(s);
    var f := FlagsOf(s);
    var w := f.(width := s.width);
    var c := w.(precision := s.precision);
    Whole(s);
    Behind1(fmt, p, flags, width + (precision + tail));
    Behind1(fmt, p + |flags|, width, precision + tail);
    Behind1(fmt, p + |flags| + |width|, precision, tail);
    FlagsRead(fmt, p, s);
    WidthRead(fmt, p + |flags|, s, f, args, k);
    PrecisionRead(fmt, p + |flags| + |width|, s, w, args, k);
    LengthRead(fmt, p + |flags| + |width| + |precision|, s, c);
    Steps(fmt, p, args, k, f, w, c, s, p + |flags|, p + |flags| + |width|, p + |flags| + |width| + |precision|, p + |SpecText(s)| - 1);
  }

  lemma Whole(s: Spec)
    requires Writable(s)
    ensures SpecText(s) == FlagText(s) + (WidthText(s) + (PrecisionText(s) + Tail(s)))
    ensures |Tail(s)| == |Opt(s.long, 'l')| + 1
    ensures s.plus ==> s.sign
    ensures var f := FlagsOf(s); f.width == 0 && f.precision.None? && !f.long
    ensures Conversion(s.conv, FlagsOf(s).(width := s.width, precision := s.precision, long := s.long)) == s
  {
    hide FlagText, WidthText, PrecisionText;
  }

  lemma Steps(fmt: string, p: nat, args: seq<Arg>, k: nat, f: Spec, w: Spec, c: Spec, s: Spec, p1: nat, p2: nat, p3: nat, p4: nat)
    requires p <= p1 <= p2 <= p3 <= p4 < |fmt| && Flags(fmt, p, PLAIN) == (f, p1)
    requires Width(fmt, p1, f, args, k) == Parsed(w, p2, k) && Precision(fmt, p2, w, args, k) == Parsed(c, p3, k)
    requires Length(fmt, p3, c) == (c.(long := s.long), p4) && Conversion(Peek(fmt, p4), c.(long := s.long)) == s
    ensures ReadSpec(fmt, p, args, k) == Parsed(s, p4, k)
  {
    hide Flags, Width, Precision, Length;
  }

  /** A format that is one numeric conversion gives the text the standard demands for its argument. */
  lemma OneNumber(s: Spec, v: int)
    requires Writable(s) && IsNumber(s.conv) && s.width <= MAX_INT && (s.precision.Some? ==> s.precision.value <= MAX_INT)
    ensures Output("%" + SpecText(s), 0, [Num(v)], 0) == NumberText(s, Shown(s, v))
  {
    hide NumberText, Shown, ReadSpec, SpecText;
    var text := SpecText(s);
    var fmt := "%" + text;
    assert Here(fmt, 1, text) && |fmt| == |text| + 1;
    assert |text| > 0 by { Whole(s); }
    ReadWritten(fmt, 1, s, [Num(v)], 0);
    OutputStep(fmt, 0, [Num(v)], 0);
    Ending(NumberText(s, Shown(s, v)));
  }
}
