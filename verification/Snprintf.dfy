/** `portable_vsnprintf`: a bounded formatter, in its default build. */
module Snprintf {
  import opened FormatSpec
  import opened Wrappers

  // ---- reading a format ----

  function Peek(fmt: string, p: nat): char {
    if p < |fmt| then fmt[p] else '\0'
  }

  predicate IsFlag(c: char) {
    c == '0' || c == '-' || c == '+' || c == ' ' || c == '#' || c == '\''
  }

  predicate IsDigit(c: char) {
    '0' <= c <= '9'
  }

  function SetFlag(s: Spec, c: char): Spec {
    if c == '0' then s.(zero := true)
    else if c == '-' then s.(left := true)
    else if c == '+' then s.(sign := true, plus := true)
    else if c == ' ' then s.(sign := true)
    else if c == '#' then s.(alt := true)
    else s
  }

  /** A specification read so far, the place in the format and the next argument. */
  datatype Parsed = Parsed(spec: Spec, p: nat, k: nat)

  function Flags(fmt: string, p: nat, s: Spec): (r: (Spec, nat))
    ensures p <= r.1 && (p <= |fmt| ==> r.1 <= |fmt|)
    decreases |fmt| - p
  {
    if p < |fmt| && IsFlag(fmt[p]) then Flags(fmt, p + 1, SetFlag(s, fmt[p])) else (s, p)
  }

  /** Digits as an unsigned int. */
  function Number(fmt: string, p: nat, v: nat): (r: (nat, nat))
    ensures p <= r.1 && (p <= |fmt| ==> r.1 <= |fmt|)
    decreases |fmt| - p
  {
    if p < |fmt| && IsDigit(fmt[p]) then Number(fmt, p + 1, (10 * v + fmt[p] as nat - 48) % 0x1_0000_0000) else (v, p)
  }

  /** Arguments of another type or missing ones are undefined in C; they read as 0 and null here. */
  function IntArg(args: seq<Arg>, k: nat): int {
    if k < |args| && args[k].Num? then args[k].v else 0
  }

  function TextArg(args: seq<Arg>, k: nat): Option<string> {
    if k < |args| && args[k].Text? then args[k].s else None
  }

  function PointerArg(args: seq<Arg>, k: nat): (a: Arg)
    ensures a.Pointer?
  {
    if k < |args| && args[k].Pointer? then args[k] else Pointer(true, "")
  }

  function Width(fmt: string, p: nat, s: Spec, args: seq<Arg>, k: nat): (r: Parsed)
    requires p <= |fmt|
    ensures p <= r.p <= |fmt|
  {
    if Peek(fmt, p) == '*' && p < |fmt| then
      var j := IntArg(args, k);
      if j >= 0 then Parsed(s.(width := j), p + 1, k + 1) else Parsed(s.(width := -j, left := true), p + 1, k + 1)
    else
      var r := Number(fmt, p, 0);
      Parsed(s.(width := r.0), r.1, k)
  }

  function Precision(fmt: string, p: nat, s: Spec, args: seq<Arg>, k: nat): (r: Parsed)
    requires p <= |fmt|
    ensures p <= r.p <= |fmt|
  {
    if p == |fmt| || fmt[p] != '.' then Parsed(s, p, k)
    else if p + 1 < |fmt| && fmt[p + 1] == '*' then
      var j := IntArg(args, k);
      if j >= 0 then Parsed(s.(precision := Some(j)), p + 2, k + 1) else Parsed(s, p + 2, k + 1)
    else
      var r := Number(fmt, p + 1, 0);
      Parsed(s.(precision := Some(r.0)), r.1, k)
  }

  /** `h`, `l` and `ll`. */
  function Length(fmt: string, p: nat, s: Spec): (r: (Spec, nat))
    requires p <= |fmt|
    ensures p <= r.1 <= |fmt|
  {
    if Peek(fmt, p) == 'h' && p < |fmt| then (s, p + 1)
    else if Peek(fmt, p) == 'l' && p < |fmt| then
      (s.(long := true), if p + 1 < |fmt| && fmt[p + 1] == 'l' then p + 2 else p + 1)
    else (s, p)
  }

  /** The conversion character, with its synonyms. */
  function Conversion(c: char, s: Spec): Spec {
    if c == 'i' then s.(conv := 'd')
    else if c == 'D' then s.(conv := 'd', long := true)
    else if c == 'U' then s.(conv := 'u', long := true)
    else if c == 'O' then s.(conv := 'o', long := true)
    else s.(conv := c)
  }

  const PLAIN := Spec(false, false, false, false, false, 0, None, false, '\0')

  /** A whole specification; `p` is behind the `%`, and at the conversion character afterwards. */
  function ReadSpec(fmt: string, p: nat, args: seq<Arg>, k: nat): (r: Parsed)
    requires p <= |fmt|
    ensures p <= r.p <= |fmt|
  {
    var f := Flags(fmt, p, PLAIN);
    var w := Width(fmt, f.1, f.0, args, k);
    var c := Precision(fmt, w.p, w.spec, args, w.k);
    var l := Length(fmt, c.p, c.spec);
    Parsed(Conversion(Peek(fmt, l.1), l.0), l.1, c.k)
  }

  predicate TakesArg(conv: char) {
    IsNumber(conv) || conv == 'c' || conv == 's' || conv == 'p'
  }

  function CharOf(v: int): char {
    (v % 256) as char
  }

  /** What a conversion puts out; `c` is the character found where the conversion should be. */
  function ConversionText(spec: Spec, c: string, args: seq<Arg>, k: nat): string {
    if spec.conv == '%' then PlainText(spec, "%")
    else if spec.conv == 'c' then PlainText(spec, [CharOf(IntArg(args, k))])
    else if spec.conv == 's' then PlainText(spec, Shortened(spec, TextArg(args, k)))
    else if IsNumber(spec.conv) then NumberText(spec, Shown(spec, IntArg(args, k)))
    else if spec.conv == 'p' then PointerText(spec, ShownPointer(spec, PointerArg(args, k)))
    else c
  }

  /** What the system prints for a pointer; nothing for a null pointer with precision 0. */
  function ShownPointer(spec: Spec, a: Arg): string
    requires a.Pointer?
  {
    if a.isNull && Least(spec) == 0 then "" else a.shown
  }

  /** A minus sign and a `0x` in front of digits. */
  function Marks(s: string): (n: nat)
    ensures n <= |s|
  {
    var n := if |s| > 0 && s[0] == '-' then 1 else 0;
    if n + 1 < |s| && s[n] == '0' && (s[n + 1] == 'x' || s[n + 1] == 'X') then n + 2 else n
  }

  /** Precision and width treat a pointer like a number: zeros go behind its `0x`. */
  function PointerText(spec: Spec, s: string): string {
    var n := Marks(s);
    InField(spec.left, spec.zero && spec.precision.None?, spec.width, s[..n], Repeat('0', Least(spec) - |s[n..]|) + s[n..])
  }

  /** The whole output of a format from `p` on, without any bound. */
  function Output(fmt: string, p: nat, args: seq<Arg>, k: nat): string
    requires p <= |fmt|
    decreases |fmt| - p
  {
    if p == |fmt| then ""
    else if fmt[p] != '%' then [fmt[p]] + Output(fmt, p + 1, args, k)
    else
      var r := ReadSpec(fmt, p + 1, args, k);
      var next := Behind(fmt, r.p);
      ConversionText(r.spec, fmt[r.p..next], args, r.k) + Output(fmt, next, args, NextArg(r))
  }

  /** Behind the conversion character, if there is one. */
  function Behind(fmt: string, p: nat): (q: nat)
    requires p <= |fmt|
    ensures p <= q <= |fmt|
  {
    if p < |fmt| then p + 1 else p
  }

  function NextArg(r: Parsed): nat {
    if TakesArg(r.spec.conv) then r.k + 1 else r.k
  }

  lemma OutputStep(fmt: string, p: nat, args: seq<Arg>, k: nat)
    requires p < |fmt| && fmt[p] == '%'
    ensures var r := ReadSpec(fmt, p + 1, args, k);
            Output(fmt, p, args, k) ==
            ConversionText(r.spec, fmt[r.p..Behind(fmt, r.p)], args, r.k) + Output(fmt, Behind(fmt, r.p), args, NextArg(r))
  {
    hide ReadSpec, ConversionText;
  }

  lemma Joined(a: string, b: string, c: string)
    ensures (a + b) + c == a + (b + c) && "" + c == c
  {}

  lemma PlainStep(fmt: string, p: nat, args: seq<Arg>, k: nat)
    requires p < |fmt| && fmt[p] != '%'
    ensures Output(fmt, p, args, k) == [fmt[p]] + Output(fmt, p + 1, args, k)
  {
    hide ReadSpec, ConversionText, Behind, NextArg;
  }

  lemma {:induction false} CopyRun(fmt: string, p: nat, q: nat, args: seq<Arg>, k: nat)
    requires p <= q <= |fmt| && forall i :: p <= i < q ==> fmt[i] != '%'
    ensures Output(fmt, p, args, k) == fmt[p..q] + Output(fmt, q, args, k)
    decreases q - p
  {
    hide ReadSpec, ConversionText, Behind, NextArg;
    if p < q {
      PlainStep(fmt, p, args, k);
      CopyRun(fmt, p + 1, q, args, k);
      hide Output;
      Joined([fmt[p]], fmt[p + 1..q], Output(fmt, q, args, k));
      assert fmt[p..q] == [fmt[p]] + fmt[p + 1..q];
    } else {
      Joined("", "", Output(fmt, q, args, k));
      assert fmt[p..q] == "";
    }
  }

  function Min(a: nat, b: nat): nat { if a < b then a else b }

  /** The buffer holds the beginning of the output; nothing else has changed. */
  ghost predicate Holds(now: string, was: string, out: string, m: nat) {
    && m <= |was|
    && var n := Min(|out|, m);
       now == out[..n] + was[n..]
  }

  lemma HoldsMore(now: string, was: string, out: string, m: nat, s: string, next: string)
    requires Holds(now, was, out, m) && |out| < m
    requires var n := Min(|s|, m - |out|);
             next == now[..|out|] + s[..n] + now[|out| + n..]
    ensures Holds(next, was, out + s, m)
  {
    var n := Min(|s|, m - |out|);
    assert Min(|out + s|, m) == |out| + n;
    assert now[..|out|] == out && now[|out| + n..] == was[|out| + n..];
    assert (out + s)[..|out| + n] == out + s[..n];
  }

  lemma HoldsFull(now: string, was: string, out: string, m: nat, s: string)
    requires Holds(now, was, out, m) && |out| >= m
    ensures Holds(now, was, out + s, m)
  {
    assert (out + s)[..m] == out[..m];
  }

  /** The first `i` characters of `s` have been put in at `at`. */
  ghost predicate PutIn(was: string, at: nat, s: string, i: nat, now: string) {
    i <= |s| && at + i <= |was| && now == was[..at] + s[..i] + was[at + i..]
  }

  lemma PutNone(was: string, at: nat, s: string)
    requires at <= |was|
    ensures PutIn(was, at, s, 0, was)
  {}

  lemma PutStep(was: string, at: nat, s: string, i: nat, now: string)
    requires i < |s| && at + i < |was| && PutIn(was, at, s, i, now)
    ensures |now| == |was| && PutIn(was, at, s, i + 1, now[at + i := s[i]])
  {}

  lemma PutAll(was: string, at: nat, s: string, n: nat, now: string)
    requires PutIn(was, at, s, n, now)
    ensures n <= |s| && at + n <= |was| && now == was[..at] + s[..n] + was[at + n..]
  {}

  /** The text of a field around `arg`, with zeros put in at `ind`. */
  function FieldText(left: bool, zero: bool, width: nat, arg: string, ind: nat, zeros: nat): string
    requires ind <= |arg|
  {
    var pad := width - (|arg| + zeros);
    var middle := Middle(arg, ind, zeros);
    if left then middle + Repeat(' ', pad) else Repeat(if zero then '0' else ' ', pad) + middle
  }

  function Middle(arg: string, ind: nat, zeros: nat): string
    requires ind <= |arg|
  {
    arg[..ind] + Repeat('0', zeros) + arg[ind..]
  }

  const MAX_INT := 0x7FFF_FFFF

  /** What is left of a number in an `int`. */
  function AsInt(x: int): int {
    var m := x % 0x1_0000_0000;
    if m <= MAX_INT then m else m - 0x1_0000_0000
  }

  lemma IntSame(x: int)
    ensures AsInt(x) == x <==> -MAX_INT - 1 <= x <= MAX_INT
  {}

  /** A field has its width, or the length of what is in it. */
  lemma FieldLength(left: bool, zero: bool, width: nat, arg: string, ind: nat, zeros: nat)
    requires ind <= |arg|
    ensures |FieldText(left, zero, width, arg, ind, zeros)| == if width > |arg| + zeros then width else |arg| + zeros
  {
    assert |Middle(arg, ind, zeros)| == |arg| + zeros;
  }

  /** The buffer, how much of it may be used, and how much would have been written without a bound. */
  class Sink {
    const str: array<char>
    const strM: nat
    var strL: nat
    ghost var out: string
    ghost const was: string

    ghost predicate Valid()
      reads this, str
    {
      strL == |out| && Holds(str[..], was, out, strM) && str.Length == |was|
    }

    constructor (str: array<char>, strM: nat)
      requires strM <= str.Length
      ensures Valid() && this.str == str && this.strM == strM && out == "" && was == str[..]
    {
      this.str, this.strM, strL := str, strM, 0;
      out, was := "", str[..];
    }

    /** `fast_memcpy` into the buffer. */
    method CopyIn(s: string, n: nat)
      requires n <= |s| && strL + n <= str.Length
      modifies str
      ensures str[..] == old(str[..])[..strL] + s[..n] + old(str[..])[strL + n..]
    {
      hide PutIn;
      var i := 0;
      ghost var was := str[..];
      PutNone(was, strL, s);
      while i < n
        invariant 0 <= i <= n && |was| == str.Length
        invariant PutIn(was, strL, s, i, str[..])
      {
        PutStep(was, strL, s, i, str[..]);
        str[strL + i] := s[i];
        i := i + 1;
      }
      PutAll(was, strL, s, n, str[..]);
    }

    /** The guarded copies: as much of `s` as there is room for, but all of it is counted. */
    method Emit(s: string)
      requires Valid()
      modifies this, str
      ensures Valid() && out == old(out) + s
    {
      hide Holds;
      ghost var before := str[..];
      if strL < strM {
        var avail := strM - strL;
        var n := if |s| > avail then avail else |s|;
        HoldsFits(before, was, out, strM);
        CopyIn(s, n);
        HoldsMore(before, was, out, strM, s, str[..]);
      } else {
        HoldsFull(before, was, out, strM, s);
      }
      strL := strL + |s|;
      out := out + s;
    }

    /** `fast_memset` of `n` characters, if there are any. */
    method Fill(c: char, n: int)
      requires Valid()
      modifies this, str
      ensures Valid() && out == old(out) + Repeat(c, n)
    {
      hide Holds;
      if n > 0 {
        Emit(Repeat(c, n));
      } else {
        assert out + "" == out;
      }
    }

    /** A number or string with the zeros put in; without zeros it is copied in one go. */
    method Inner(arg: string, ind: nat, zeros: nat)
      requires Valid() && ind <= |arg| && |arg| + zeros <= MAX_INT
      modifies this, str
      ensures Valid() && out == old(out) + Middle(arg, ind, zeros)
    {
      hide Holds, Repeat, AsInt;
      IntSame(zeros);
      var from := ind;
      if zeros <= 0 {
        from := 0;
      } else {
        Emit(arg[..ind]);
        Fill('0', AsInt(zeros));
      }
      Emit(arg[from..]);
      MiddleOf(old(out), arg, ind, zeros);
    }

    /** The emission of one field: left padding, the sign or prefix, inserted zeros, the rest, right padding.  What is missing
        to the width is taken as an `int`. */
    method Field(left: bool, zero: bool, width: nat, arg: string, ind: nat, zeros: nat)
      requires Valid() && ind <= |arg| && |FieldText(left, zero, width, arg, ind, zeros)| <= MAX_INT
      modifies this, str
      ensures Valid() && out == old(out) + FieldText(left, zero, width, arg, ind, zeros)
    {
      hide Holds, Repeat, Middle, AsInt;
      FieldLength(left, zero, width, arg, ind, zeros);
      IntSame(width - (|arg| + zeros));
      if !left {
        Fill(if zero then '0' else ' ', AsInt(width - (|arg| + zeros)));
      }
      Inner(arg, ind, zeros);
      if left {
        Fill(' ', AsInt(width - (|arg| + zeros)));
      }
    }
  }

  lemma HoldsFits(now: string, was: string, out: string, m: nat)
    requires Holds(now, was, out, m)
    ensures m <= |now| == |was|
  {}

  lemma MiddleOf(start: string, arg: string, ind: nat, zeros: nat)
    requires ind <= |arg|
    ensures zeros == 0 ==> start + arg[0..] == start + Middle(arg, ind, zeros)
    ensures zeros > 0 ==> start + arg[..ind] + Repeat('0', zeros) + arg[ind..] == start + Middle(arg, ind, zeros)
  {
    assert arg[..ind] + arg[ind..] == arg;
  }

  // ---- numbers ----

  /** What the system's `sprintf` makes of a number with no flags. */
  function Sprintf(spec: Spec, v: int): string {
    (if v < 0 then "-" else "") + Digits(Abs(v), BaseOf(spec.conv), spec.conv == 'X')
  }

  /** What the code itself puts in front. */
  function Front(spec: Spec, v: int): string {
    if v < 0 then "" else SignPart(spec, v)
  }

  /** A sign before what is not negative, or the prefix of the alternate form. */
  method PutFront(spec: Spec, v: int, tmp: array<char>) returns (l: nat)
    requires IsNumber(spec.conv) && tmp.Length == 32 && InRange(spec, v)
    modifies tmp
    ensures l == |Front(spec, v)| && l <= 2 && tmp[..l] == Front(spec, v)
  {
    var argSign := if v > 0 then 1 else if v < 0 then -1 else 0;
    l := 0;
    if spec.conv == 'd' {
      if spec.sign && argSign >= 0 {
        tmp[0] := if spec.plus then '+' else ' ';
        l := 1;
      }
    } else if spec.alt {
      if argSign != 0 && (spec.conv == 'x' || spec.conv == 'X') {
        tmp[0], tmp[1] := '0', spec.conv;
        l := 2;
      }
    }
  }

  /** The sign or prefix and the digits in `tmp`, and the place between them. */
  method Convert(spec: Spec, v: int, tmp: array<char>) returns (l: nat, ind: nat)
    requires IsNumber(spec.conv) && tmp.Length == 32 && InRange(spec, v)
    modifies tmp
    ensures ind <= l <= 32 && tmp[..l] == SignPart(spec, v) + Plain(spec, v) && ind == |SignPart(spec, v)|
  {
    l := PutFront(spec, v, tmp);
    ind := l;
    if Least(spec) == 0 && v == 0 {
      Nothing(spec, v);
    } else {
      PlainShort(spec, v);
      Scan(spec, v);
      hide Front, Sprintf, SignPart, Plain;
      l := PutText(Sprintf(spec, v), tmp, l);
      assert tmp[..l][ind..] == Sprintf(spec, v);
      ind := SkipMarks(tmp, l, ind);
    }
  }

  /** A minus sign and a `0x` that `sprintf` has put in belong before the inserted zeros. */
  method SkipMarks(tmp: array<char>, l: nat, at: nat) returns (ind: nat)
    requires at <= l <= tmp.Length
    ensures ind == at + Marks(tmp[..l][at..]) && ind <= l
  {
    ind := at;
    if ind < l && tmp[ind] == '-' {
      ind := ind + 1;
    }
    if ind + 1 < l && tmp[ind] == '0' && (tmp[ind + 1] == 'x' || tmp[ind + 1] == 'X') {
      ind := ind + 2;
    }
  }

  lemma Nothing(spec: Spec, v: int)
    requires Least(spec) == 0 && v == 0
    ensures Front(spec, v) == SignPart(spec, v) == SignPart(spec, v) + Plain(spec, v)
  {}

  /** A call of the system's `sprintf`, which also puts a NUL behind its output. */
  method PutText(s: string, tmp: array<char>, at: nat) returns (l: nat)
    requires at + |s| < tmp.Length
    modifies tmp
    ensures l == at + |s| && tmp[..l] == old(tmp[..at]) + s
  {
    l := at;
    while l < at + |s|
      invariant at <= l <= at + |s| && tmp[..l] == old(tmp[..at]) + s[..l - at]
    {
      tmp[l] := s[l - at];
      l := l + 1;
    }
    tmp[l] := '\0';
  }

  lemma Scan(spec: Spec, v: int)
    requires IsNumber(spec.conv) && InRange(spec, v) && !(Least(spec) == 0 && v == 0)
    ensures Front(spec, v) + Sprintf(spec, v) == SignPart(spec, v) + Plain(spec, v)
    ensures |Sprintf(spec, v)| <= |Plain(spec, v)| + 1
    ensures |Front(spec, v)| + Marks(Sprintf(spec, v)) == |SignPart(spec, v)|
  {
    hide Digits;
  }

  /** The zeros to insert for the precision, the alternate form of `o` and the `0` flag. */
  method ZerosToPad(spec: Spec, tmp: array<char>, l: nat, ind: nat) returns (zeros: nat)
    requires ind <= l <= tmp.Length && spec.width <= MAX_INT && l + PrecisionZeros(spec, tmp[ind..l]) <= MAX_INT
    ensures zeros == ZeroCount(spec, tmp[ind..l], l)
  {
    hide AsInt;
    var precision := Least(spec);
    var numOfDigits := l - ind;
    if spec.alt && spec.conv == 'o' && !(ind < l && tmp[ind] == '0') {
      if spec.precision.None? || precision < numOfDigits + 1 {
        precision := numOfDigits + 1;
      }
    }
    zeros := 0;
    if numOfDigits < precision {
      zeros := precision - numOfDigits;
    }
    if !spec.left && spec.zero && spec.precision.None? {
      IntSame(spec.width - (l + zeros));
      var n := AsInt(spec.width - (l + zeros));
      if n > 0 {
        zeros := zeros + n;
      }
    }
  }

  function PrecisionZeros(spec: Spec, digits: string): nat {
    var least := Least(spec);
    var forced := spec.alt && spec.conv == 'o' && !(|digits| > 0 && digits[0] == '0');
    if forced && (spec.precision.None? || least < |digits| + 1) then 1
    else if |digits| < least then least - |digits| else 0
  }

  function ZeroCount(spec: Spec, digits: string, l: nat): nat {
    var zeros := PrecisionZeros(spec, digits);
    AllZeros(spec.left, spec.zero && spec.precision.None?, spec.width, l, zeros)
  }

  lemma DigitsPartIs(spec: Spec, v: int)
    requires IsNumber(spec.conv)
    ensures DigitsPart(spec, v) == Repeat('0', PrecisionZeros(spec, Plain(spec, v))) + Plain(spec, v)
  {
    hide Digits;
  }

  /** With that many zeros at that place, the field is the one of the standard. */
  lemma NumberField(spec: Spec, v: int)
    requires IsNumber(spec.conv)
    ensures var sign, plain := SignPart(spec, v), Plain(spec, v);
            FieldText(spec.left, spec.zero && spec.precision.None?, spec.width, sign + plain, |sign|,
                      ZeroCount(spec, plain, |sign + plain|)) == NumberText(spec, v)
  {
    hide DigitsPart, Plain, SignPart, PrecisionZeros, Repeat, FieldText, InField;
    var sign, plain := SignPart(spec, v), Plain(spec, v);
    var zeros, p := ZeroCount(spec, plain, |sign + plain|), PrecisionZeros(spec, plain);
    DigitsPartIs(spec, v);
    InFieldIs(spec.left, spec.zero && spec.precision.None?, spec.width, sign, plain, p);
  }

  function AllZeros(left: bool, zero: bool, width: nat, l: nat, p: nat): nat {
    if !left && zero && width > l + p then width - l else p
  }

  lemma InFieldIs(left: bool, zero: bool, width: nat, sign: string, plain: string, p: nat)
    ensures FieldText(left, zero, width, sign + plain, |sign|, AllZeros(left, zero, width, |sign + plain|, p)) ==
            InField(left, zero, width, sign, Repeat('0', p) + plain)
  {
    hide FieldText;
    FieldSplit(left, zero, width, sign, plain, AllZeros(left, zero, width, |sign + plain|, p));
    var pad := width - (|sign| + |plain| + p);
    if left {
      RightPadded(sign, plain, p, Repeat(' ', pad));
    } else if !zero {
      LeftPadded(sign, plain, p, Repeat(' ', pad));
    } else {
      ZeroPadded(sign, plain, p, pad);
    }
  }

  lemma RightPadded(sign: string, plain: string, p: nat, back: string)
    ensures sign + Repeat('0', p) + plain + back == sign + (Repeat('0', p) + plain) + back
  {
    hide Repeat;
  }

  lemma LeftPadded(sign: string, plain: string, p: nat, front: string)
    ensures front + (sign + Repeat('0', p) + plain) == front + sign + (Repeat('0', p) + plain)
  {
    hide Repeat;
  }

  lemma ZeroPadded(sign: string, plain: string, p: nat, pad: int)
    ensures var more := if pad > 0 then pad else 0;
            Repeat('0', pad - more) + (sign + Repeat('0', p + more) + plain) ==
            sign + Repeat('0', pad) + (Repeat('0', p) + plain)
  {
    var more := if pad > 0 then pad else 0;
    assert Repeat('0', p + more) == Repeat('0', pad) + Repeat('0', p);
    assert Repeat('0', pad - more) == "";
  }

  lemma FieldSplit(left: bool, zero: bool, width: nat, sign: string, plain: string, zeros: nat)
    ensures var pad := width - (|sign| + |plain| + zeros);
            FieldText(left, zero, width, sign + plain, |sign|, zeros) ==
            if left then sign + Repeat('0', zeros) + plain + Repeat(' ', pad)
            else Repeat(if zero then '0' else ' ', pad) + (sign + Repeat('0', zeros) + plain)
  {
    hide Repeat;
    assert (sign + plain)[..|sign|] == sign && (sign + plain)[|sign|..] == plain;
  }

  /** Characters and strings have no zeros put in. */
  lemma PlainField(spec: Spec, s: string)
    ensures FieldText(spec.left, false, spec.width, s, 0, 0) == PlainText(spec, s)
  {
    assert s[..0] + Repeat('0', 0) + s[0..] == s;
  }

  // ---- reading a specification ----

  method ParseNumber(fmt: string, at: nat) returns (uj: nat, p: nat)
    requires at <= |fmt|
    ensures (uj, p) == Number(fmt, at, 0)
  {
    uj, p := 0, at;
    while IsDigit(Peek(fmt, p))
      invariant p <= |fmt| && Number(fmt, p, uj) == Number(fmt, at, 0)
      decreases |fmt| - p
    {
      uj := (10 * uj + (fmt[p] as nat - 48)) % 0x1_0000_0000;
      p := p + 1;
    }
  }

  method ParseFlags(fmt: string, at: nat) returns (s: Spec, p: nat)
    requires at <= |fmt|
    ensures (s, p) == Flags(fmt, at, PLAIN)
  {
    s, p := PLAIN, at;
    while IsFlag(Peek(fmt, p))
      invariant p <= |fmt| && Flags(fmt, p, s) == Flags(fmt, at, PLAIN)
      decreases |fmt| - p
    {
      match fmt[p] {
        case '0' => s := s.(zero := true);
        case '-' => s := s.(left := true);
        case '+' => s := s.(sign := true, plus := true);
        case ' ' => s := s.(sign := true);
        case '#' => s := s.(alt := true);
        case _ =>
      }
      p := p + 1;
    }
  }

  method ParseWidth(fmt: string, at: nat, spec: Spec, args: seq<Arg>, next: nat) returns (s: Spec, p: nat, k: nat)
    requires at <= |fmt|
    ensures Parsed(s, p, k) == Width(fmt, at, spec, args, next)
  {
    s, p, k := spec, at, next;
    if Peek(fmt, p) == '*' {
      var j := IntArg(args, k);
      p, k := p + 1, k + 1;
      if j >= 0 {
        s := s.(width := j);
      } else {
        s := s.(width := -j, left := true);
      }
    } else {
      var uj;
      uj, p := ParseNumber(fmt, p);
      s := s.(width := uj);
    }
  }

  method ParsePrecision(fmt: string, at: nat, spec: Spec, args: seq<Arg>, next: nat) returns (s: Spec, p: nat, k: nat)
    requires at <= |fmt| && spec.precision.None?
    ensures Parsed(s, p, k) == Precision(fmt, at, spec, args, next)
  {
    s, p, k := spec, at, next;
    if Peek(fmt, p) == '.' {
      p, s := p + 1, s.(precision := Some(0));
      if Peek(fmt, p) == '*' {
        var j := IntArg(args, k);
        p, k := p + 1, k + 1;
        if j >= 0 {
          s := s.(precision := Some(j));
        } else {
          s := s.(precision := None);
        }
      } else {
        var uj;
        uj, p := ParseNumber(fmt, p);
        s := s.(precision := Some(uj));
      }
    }
  }

  /** From behind the `%` to the conversion character. */
  method Parse(fmt: string, at: nat, args: seq<Arg>, next: nat) returns (s: Spec, p: nat, k: nat)
    requires at <= |fmt|
    ensures Parsed(s, p, k) == ReadSpec(fmt, at, args, next)
  {
    FlagsKeep(fmt, at, PLAIN);
    s, p := ParseFlags(fmt, at);
    s, p, k := ParseWidth(fmt, p, s, args, next);
    s, p, k := ParsePrecision(fmt, p, s, args, k);
    hide Flags, Width, Precision;
    if Peek(fmt, p) == 'h' || Peek(fmt, p) == 'l' {
      var lengthModifier := Peek(fmt, p);
      p := p + 1;
      if lengthModifier == 'l' {
        s := s.(long := true);
        if Peek(fmt, p) == 'l' {
          p := p + 1;
        }
      }
    }
    match Peek(fmt, p) {
      case 'i' => s := s.(conv := 'd');
      case 'D' => s := s.(conv := 'd', long := true);
      case 'U' => s := s.(conv := 'u', long := true);
      case 'O' => s := s.(conv := 'o', long := true);
      case c => s := s.(conv := c);
    }
  }

  lemma {:induction false} FlagsKeep(fmt: string, p: nat, s: Spec)
    ensures Flags(fmt, p, s).0.precision == s.precision
    decreases |fmt| - p
  {
    if p < |fmt| && IsFlag(fmt[p]) {
      FlagsKeep(fmt, p + 1, SetFlag(s, fmt[p]));
    }
  }

  // ---- the formatter ----

  /** What the system prints for pointers fits the buffer it is given. */
  predicate PointersFit(args: seq<Arg>) {
    forall k :: 0 <= k < |args| && args[k].Pointer? ==> |args[k].shown| < 32
  }

  /** One conversion: its text goes to the sink. */
  method PutConversion(sink: Sink, fmt: string, at: nat, args: seq<Arg>, next: nat) returns (p: nat, k: nat)
    requires sink.Valid() && at < |fmt| && fmt[at] == '%' && PointersFit(args)
    requires var r := ReadSpec(fmt, at + 1, args, next);
             |ConversionText(r.spec, fmt[r.p..Behind(fmt, r.p)], args, r.k)| < MAX_INT
    modifies sink, sink.str
    ensures var r := ReadSpec(fmt, at + 1, args, next);
            && p == Behind(fmt, r.p) && k == NextArg(r)
            && sink.Valid() && sink.out == old(sink.out) + ConversionText(r.spec, fmt[r.p..p], args, r.k)
  {
    hide ReadSpec, NumberText, PlainText, PointerText, FieldText, Holds;
    var spec, here, arg := Parse(fmt, at + 1, args, next);
    p, k := here, arg;
    if p < |fmt| {
      p := p + 1;
    }
    match spec.conv {
      case '%' =>
        PutPlain(sink, spec, "%");
      case 'c' =>
        PutPlain(sink, spec, [CharOf(IntArg(args, k))]);
        k := k + 1;
      case 's' =>
        PlainLength(spec, Shortened(spec, TextArg(args, k)));
        var s := ParseText(spec, TextArg(args, k));
        PutPlain(sink, spec, s);
        k := k + 1;
      case 'd' | 'u' | 'o' | 'x' | 'X' =>
        ShownInRange(spec, IntArg(args, k));
        PutInteger(sink, spec, Shown(spec, IntArg(args, k)));
        k := k + 1;
      case 'p' =>
        var a := PointerArg(args, k);
        PutPointer(sink, spec, a);
        k := k + 1;
      case _ =>
        AsIs(fmt[here..p]);
        sink.Field(true, false, 0, fmt[here..p], 0, 0);
    }
  }

  lemma AsIs(s: string)
    ensures FieldText(true, false, 0, s, 0, 0) == s
  {
    assert s[..0] + Repeat('0', 0) + s[0..] + Repeat(' ', 0 - |s|) == s;
  }

  lemma PlainLength(spec: Spec, s: string)
    ensures |s| <= |PlainText(spec, s)|
  {}

  /** `memchr` looks for the end of the string in no more than the largest `int`. */
  method ParseText(spec: Spec, arg: Option<string>) returns (s: string)
    requires |Shortened(spec, arg)| < MAX_INT
    ensures s == Shortened(spec, arg)
  {
    if arg.None? {
      s := "";
    } else if spec.precision.None? {
      s := arg.value;
    } else if spec.precision.value == 0 {
      s := "";
    } else {
      var n, most := 0, if spec.precision.value <= MAX_INT then spec.precision.value else MAX_INT;
      while n < most && n < |arg.value|
        invariant n <= most && n <= |arg.value|
      {
        n := n + 1;
      }
      s := arg.value[..if n < most then n else spec.precision.value];
    }
  }

  method PutPlain(sink: Sink, spec: Spec, s: string)
    requires sink.Valid() && |PlainText(spec, s)| <= MAX_INT
    modifies sink, sink.str
    ensures sink.Valid() && sink.out == old(sink.out) + PlainText(spec, s)
  {
    hide PlainText, FieldText, Holds;
    PlainField(spec, s);
    sink.Field(spec.left, false, spec.width, s, 0, 0);
  }

  /** A number: its digits in a buffer of 32 bytes, which is always enough, and the field around them. */
  method PutInteger(sink: Sink, spec: Spec, v: int)
    requires sink.Valid() && IsNumber(spec.conv) && InRange(spec, v) && |NumberText(spec, v)| <= MAX_INT
    modifies sink, sink.str
    ensures sink.Valid() && sink.out == old(sink.out) + NumberText(spec, v)
  {
    hide NumberText, FieldText, Holds, SignPart, Plain, ZeroCount, DigitsPart, PrecisionZeros;
    NumberLength(spec, v);
    DigitsPartIs(spec, v);
    var tmp := new char[32];
    var l, ind := Convert(spec, v, tmp);
    ghost var sign, plain := SignPart(spec, v), Plain(spec, v);
    assert tmp[..l][ind..] == plain && tmp[..l][ind..] == tmp[ind..l];
    var zeros := ZerosToPad(spec, tmp, l, ind);
    NumberField(spec, v);
    sink.Field(spec.left, spec.zero && spec.precision.None?, spec.width, tmp[..l], ind, zeros);
  }

  /** A pointer: what the system prints for it, in the field of a number. */
  method PutPointer(sink: Sink, spec: Spec, a: Arg)
    requires sink.Valid() && spec.conv == 'p' && a.Pointer? && |a.shown| < 32
    requires |PointerText(spec, ShownPointer(spec, a))| <= MAX_INT
    modifies sink, sink.str
    ensures sink.Valid() && sink.out == old(sink.out) + PointerText(spec, ShownPointer(spec, a))
  {
    hide FieldText, Holds, ZeroCount, Repeat, PointerText, PrecisionZeros;
    PointerLength(spec, ShownPointer(spec, a));
    var tmp := new char[32];
    var l, ind := 0, 0;
    if !(Least(spec) == 0 && a.isNull) {
      l := PutText(a.shown, tmp, 0);
      ind := SkipMarks(tmp, l, 0);
    }
    ghost var s := ShownPointer(spec, a);
    assert tmp[..l] == s && tmp[..l][ind..] == tmp[ind..l] && ind == Marks(s);
    var zeros := ZerosToPad(spec, tmp, l, ind);
    PointerField(spec, s);
    sink.Field(spec.left, spec.zero && spec.precision.None?, spec.width, tmp[..l], ind, zeros);
  }

  lemma PointerLength(spec: Spec, s: string)
    requires spec.conv == 'p'
    ensures spec.width <= |PointerText(spec, s)| && |s| + PrecisionZeros(spec, s[Marks(s)..]) <= |PointerText(spec, s)|
  {}

  lemma PointerField(spec: Spec, s: string)
    requires spec.conv == 'p'
    ensures FieldText(spec.left, spec.zero && spec.precision.None?, spec.width, s, Marks(s), ZeroCount(spec, s[Marks(s)..], |s|)) ==
            PointerText(spec, s)
  {
    hide FieldText, InField, Repeat, Marks;
    var n := Marks(s);
    var digits := s[n..];
    assert s[..n] + digits == s;
    InFieldIs(spec.left, spec.zero && spec.precision.None?, spec.width, s[..n], digits, PrecisionZeros(spec, digits));
    NoFill('0', Least(spec) - |digits|);
  }

  lemma NoFill(c: char, n: int)
    ensures n <= 0 ==> Repeat(c, n) == Repeat(c, 0)
  {}

  /** `strchr(p + 1, '%')`, or the end. */
  method FindPercent(fmt: string, p: nat) returns (q: nat)
    requires p < |fmt| && fmt[p] != '%'
    ensures p < q <= |fmt| && (forall i :: p <= i < q ==> fmt[i] != '%') && (q < |fmt| ==> fmt[q] == '%')
  {
    q := p + 1;
    while q < |fmt| && fmt[q] != '%'
      invariant p < q <= |fmt| && forall i :: p <= i < q ==> fmt[i] != '%'
    {
      q := q + 1;
    }
  }

  lemma Ending(s: string)
    ensures s + "" == s
  {}

  /** The buffer afterwards. */
  function Bounded(was: string, strM: nat, out: string): string
    requires 0 < strM <= |was|
  {
    var m := Min(|out|, strM - 1);
    out[..m] + ['\0'] + was[m + 1..]
  }

  lemma HoldsEnd(now: string, was: string, out: string, strM: nat)
    requires Holds(now, was, out, strM)
    ensures |now| == |was| >= strM && (strM == 0 ==> now == was)
    ensures strM > 0 ==> now[Min(|out|, strM - 1) := '\0'] == Bounded(was, strM, out)
  {}

  /** The return value is the length of the whole output, whatever the room; of `strM` bytes of room all but one hold
      its beginning and the next one ends it; no other byte changes.  This holds for output that an `int` can count. */
  method VsnPrintf(str: array<char>, strM: nat, fmt: string, args: seq<Arg>) returns (n: int)
    requires strM <= str.Length && PointersFit(args) && '\0' !in fmt
    requires |Output(fmt, 0, args, 0)| < MAX_INT
    modifies str
    ensures n == |Output(fmt, 0, args, 0)|
    ensures strM == 0 ==> str[..] == old(str[..])
    ensures strM > 0 ==> str[..] == Bounded(old(str[..]), strM, Output(fmt, 0, args, 0))
  {
    hide PointersFit, Holds, ConversionText, ReadSpec, AsInt;
    var sink := new Sink(str, strM);
    var p, k := 0, 0;
    while p < |fmt|
      invariant p <= |fmt|
      invariant sink.Valid() && sink.str == str && sink.strM == strM && sink.was == old(str[..]) && fresh(sink)
      invariant sink.out + Output(fmt, p, args, k) == Output(fmt, 0, args, 0)
      decreases |fmt| - p
    {
      ghost var before := sink.out;
      if fmt[p] != '%' {
        var q := FindPercent(fmt, p);
        CopyRun(fmt, p, q, args, k);
        sink.Emit(fmt[p..q]);
        Joined(before, fmt[p..q], Output(fmt, q, args, k));
        p := q;
      } else {
        OutputStep(fmt, p, args, k);
        ghost var r := ReadSpec(fmt, p + 1, args, k);
        p, k := PutConversion(sink, fmt, p, args, k);
        Joined(before, ConversionText(r.spec, fmt[r.p..p], args, r.k), Output(fmt, p, args, k));
      }
    }
    Ending(sink.out);
    HoldsEnd(str[..], sink.was, sink.out, strM);
    if strM > 0 {
      str[if sink.strL <= strM - 1 then sink.strL else strM - 1] := '\0';
    }
    IntSame(sink.strL);
    n := AsInt(sink.strL);
  }
}
