/** `regex_compile`: one pass over the pattern that patches the buffer as it goes. */
module RegexCompile {
  import opened Allocation
  import opened Bytes
  import opened Opcodes
  import opened Regex
  import opened Code
  import opened Reading
  import opened Layout
  import opened Sizes

  const MAX_BUF_SIZE := 65536
  const INIT_BUF_SIZE := 32

  /** The most bytes one command asks for at a time: a bracket expression. */
  const MOST := 34

  /** The local variables of `regex_compile`; pointers into the buffer are offsets, -1 where they are null. */
  class Compiler {
    const mem: Allocator
    const pattern: seq<byte>
    var buffer: array<byte>
    var b: nat
    var p: nat
    var laststart: int
    var begalt: int
    var fixup: int
    var pending: int
    var regnum: nat
    var stack: seq<Saved>
    ghost var rd: Reader
    ghost var holes: Holes

    ghost predicate Room()
      reads `buffer, `b
    {
      b <= buffer.Length <= MAX_BUF_SIZE && 0 < buffer.Length
    }

    ghost function Bytes(): seq<byte>
      requires Room()
      reads `buffer, `b, buffer
    {
      buffer[..b]
    }

    ghost function Vars(): Pointers
      reads `laststart, `begalt, `fixup, `pending, `regnum, `stack
    {
      Pointers(laststart, begalt, fixup, pending, regnum, stack)
    }

    /** The buffer holds what has been read so far. */
    ghost predicate Valid()
      reads this, buffer
    {
      Room() && p <= |pattern| && Laid(Bytes(), rd, holes, Vars())
    }

    constructor (pattern: seq<byte>, buffer: array<byte>, mem: Allocator)
      requires 0 < buffer.Length <= MAX_BUF_SIZE
      ensures Valid() && rd == Reader([], [], []) && p == 0 && this.pattern == pattern && this.buffer == buffer && this.mem == mem
    {
      this.pattern, this.buffer, this.mem := pattern, buffer, mem;
      b, p, laststart, begalt, fixup, pending, regnum, stack := 0, 0, -1, 0, -1, -1, 0, [];
      rd, holes := Reader([], [], []), Holes([], [0, 0, 0]);
    }

    // ---- the buffer ----

    /** GET_BUFFER_SPACE and EXTEND_BUFFER: double the buffer until it has room for `n` more bytes. */
    method GetBufferSpace(n: nat) returns (e: ErrorCode)
      requires !mem.failed && Room()
      modifies `buffer, mem
      ensures Room() && Bytes() == old(Bytes()) && (buffer == old(buffer) || fresh(buffer))
      ensures e == NoError || e == ESpace || e == ESize
      ensures (e == ESpace) == mem.failed
      ensures e == NoError ==> b + n <= buffer.Length
      ensures e == ESize ==> b + n > MAX_BUF_SIZE
    {
      while b + n > buffer.Length
        invariant Room() && buffer[..b] == old(buffer[..b]) && (buffer == old(buffer) || fresh(buffer)) && !mem.failed
        decreases MAX_BUF_SIZE - buffer.Length
      {
        if buffer.Length == MAX_BUF_SIZE {
          return ESize;
        }
        var ok := mem.Request();
        if !ok {
          return ESpace;
        }
        var size := if 2 * buffer.Length > MAX_BUF_SIZE then MAX_BUF_SIZE else 2 * buffer.Length;
        var bigger, smaller := new byte[size], buffer;
        forall i | 0 <= i < smaller.Length {
          bigger[i] := smaller[i];
        }
        buffer := bigger;
        assert buffer[..b] == smaller[..b];
      }
      return NoError;
    }

    /** BUF_PUSH, where there is room already. */
    method Put(c: byte)
      requires Room() && b < buffer.Length
      modifies `b, buffer
      ensures Room() && b == old(b) + 1 && Bytes() == old(Bytes()) + [c]
    {
      buffer[b] := c;
      b := b + 1;
    }

    method BufPush(s: seq<byte>) returns (e: ErrorCode)
      requires !mem.failed && Room() && |s| <= 3
      modifies `b, `buffer, buffer, mem
      ensures Room() && (buffer == old(buffer) || fresh(buffer))
      ensures e == NoError || e == ESpace || e == ESize
      ensures (e == ESpace) == mem.failed
      ensures e == NoError ==> Bytes() == old(Bytes()) + s && b == old(b) + |s|
      ensures e == ESize ==> old(b) + |s| > MAX_BUF_SIZE
    {
      e := GetBufferSpace(|s|);
      if e != NoError {
        return;
      }
      var i := 0;
      ghost var was := Bytes();
      while i < |s|
        invariant 0 <= i <= |s| && b == old(b) + i && Room() && old(b) + |s| <= buffer.Length
        invariant Bytes() == was + s[..i]
        modifies `b, buffer
      {
        Put(s[i]);
        i := i + 1;
      }
    }

    /** `store_op1`. */
    method StoreOp1(op: byte, loc: int, arg: int)
      requires 0 <= loc && loc + 3 <= buffer.Length
      modifies buffer
      ensures buffer[..] == old(buffer[..loc]) + Op1(op, arg) + old(buffer[loc + 3..])
    {
      buffer[loc] := op;
      buffer[loc + 1], buffer[loc + 2] := arg % 256, (arg / 256) % 256;
    }

    /** `store_op2`. */
    method StoreOp2(op: byte, loc: int, arg1: int, arg2: int)
      requires 0 <= loc && loc + 5 <= buffer.Length
      modifies buffer
      ensures buffer[..] == old(buffer[..loc]) + Op2(op, arg1, arg2) + old(buffer[loc + 5..])
    {
      buffer[loc] := op;
      buffer[loc + 1], buffer[loc + 2] := arg1 % 256, (arg1 / 256) % 256;
      buffer[loc + 3], buffer[loc + 4] := arg2 % 256, (arg2 / 256) % 256;
    }

    /** The copying loop of `insert_op1` and `insert_op2`: open up `n` bytes at `loc`. */
    method OpenUp(loc: int, end: int, n: nat)
      requires 0 <= loc <= end && end + n <= buffer.Length
      modifies buffer
      ensures buffer[..loc] == old(buffer[..loc]) && buffer[loc + n..end + n] == old(buffer[loc..end])
    {
      var from, to := end, end + n;
      while from != loc
        invariant loc <= from <= end && to == from + n
        invariant forall i :: 0 <= i < from ==> buffer[i] == old(buffer[i])
        invariant forall i :: from <= i < end ==> buffer[i + n] == old(buffer[i])
        decreases from
      {
        to, from := to - 1, from - 1;
        buffer[to] := buffer[from];
      }
      forall i | 0 <= i < end - loc ensures buffer[loc + n..end + n][i] == old(buffer[loc..end])[i] {
        assert buffer[loc + i + n] == old(buffer[loc + i]);
      }
    }

    /** `insert_op1`: what lies between `loc` and `end` moves up by three bytes. */
    method InsertOp1(op: byte, loc: int, arg: int, end: int)
      requires 0 <= loc <= end && end + 3 <= buffer.Length
      modifies buffer
      ensures buffer[..end + 3] == old(buffer[..loc]) + Op1(op, arg) + old(buffer[loc..end])
    {
      OpenUp(loc, end, 3);
      label moved:
      StoreOp1(op, loc, arg);
      assert buffer[..loc] == old@moved(buffer[..loc]);
      assert buffer[loc + 3..end + 3] == old@moved(buffer[loc + 3..end + 3]) by {
        assert buffer[loc + 3..] == old@moved(buffer[loc + 3..]);
      }
      assert buffer[loc..loc + 3] == Op1(op, arg);
      assert buffer[..end + 3] == buffer[..loc] + buffer[loc..loc + 3] + buffer[loc + 3..end + 3];
    }

    /** `insert_op2`: what lies between `loc` and `end` moves up by five bytes. */
    method InsertOp2(op: byte, loc: int, arg1: int, arg2: int, end: int)
      requires 0 <= loc <= end && end + 5 <= buffer.Length
      modifies buffer
      ensures buffer[..end + 5] == old(buffer[..loc]) + Op2(op, arg1, arg2) + old(buffer[loc..end])
    {
      OpenUp(loc, end, 5);
      label moved:
      StoreOp2(op, loc, arg1, arg2);
      assert buffer[..loc] == old@moved(buffer[..loc]);
      assert buffer[loc + 5..end + 5] == old@moved(buffer[loc + 5..end + 5]) by {
        assert buffer[loc + 5..] == old@moved(buffer[loc + 5..]);
      }
      assert buffer[loc..loc + 5] == Op2(op, arg1, arg2);
      assert buffer[..end + 5] == buffer[..loc] + buffer[loc..loc + 5] + buffer[loc + 5..end + 5];
    }

    /** INSERT_JUMP at the end of which `b` moves on. */
    method GrowOp1(op: byte, loc: int, arg: int)
      requires Room() && 0 <= loc <= b && b + 3 <= buffer.Length
      modifies `b, buffer
      ensures Room() && b == old(b) + 3 && Bytes() == Inserted(old(Bytes()), loc, Op1(op, arg))
    {
      assert buffer[..loc] == Bytes()[..loc] && buffer[loc..b] == Bytes()[loc..];
      InsertOp1(op, loc, arg, b);
      b := b + 3;
    }

    method GrowOp2(op: byte, loc: int, arg1: int, arg2: int)
      requires Room() && 0 <= loc <= b && b + 5 <= buffer.Length
      modifies `b, buffer
      ensures Room() && b == old(b) + 5 && Bytes() == Inserted(old(Bytes()), loc, Op2(op, arg1, arg2))
    {
      assert buffer[..loc] == Bytes()[..loc] && buffer[loc..b] == Bytes()[loc..];
      InsertOp2(op, loc, arg1, arg2, b);
      b := b + 5;
    }

    /** STORE_JUMP at the end of the buffer. */
    method AppendOp1(op: byte, arg: int)
      requires Room() && b + 3 <= buffer.Length
      modifies `b, buffer
      ensures Room() && b == old(b) + 3 && Bytes() == old(Bytes()) + Op1(op, arg)
    {
      StoreOp1(op, b, arg);
      assert buffer[..b + 3] == old(Bytes()) + Op1(op, arg);
      b := b + 3;
    }

    method AppendOp2(op: byte, arg1: int, arg2: int)
      requires Room() && b + 5 <= buffer.Length
      modifies `b, buffer
      ensures Room() && b == old(b) + 5 && Bytes() == old(Bytes()) + Op2(op, arg1, arg2)
    {
      StoreOp2(op, b, arg1, arg2);
      assert buffer[..b + 5] == old(Bytes()) + Op2(op, arg1, arg2);
      b := b + 5;
    }

    // ---- ordinary characters ----

    /** Start a new `exactn` for one character. */
    method StartExact(c: byte) returns (e: ErrorCode)
      requires !mem.failed && Room()
      modifies `b, `buffer, `laststart, `pending, buffer, mem
      ensures Room() && (buffer == old(buffer) || fresh(buffer))
      ensures e == NoError || e == ESpace || e == ESize
      ensures (e == ESpace) == mem.failed
      ensures e == NoError ==> Bytes() == old(Bytes()) + [EXACTN, 1, c] && laststart == old(b) && pending == old(b) + 1
      ensures e == ESize ==> old(b) + MOST > MAX_BUF_SIZE
    {
      ghost var code := Bytes();
      laststart := b;
      e := BufPush([EXACTN, 0]);
      if e != NoError {
        return;
      }
      pending := b - 1;
      e := BufPush([c]);
      if e != NoError {
        return;
      }
      assert Bytes() == code + [EXACTN, 0, c];
      buffer[pending] := buffer[pending] + 1;
      assert Bytes() == code + [EXACTN, 1, c];
    }

    /** Add a character to the `exactn` being built, or start a new one.  `at` is where the last expression starts. */
    method NormalChar(c: byte, quoted: bool, ghost at: int) returns (e: ErrorCode)
      requires !mem.failed && Room() && p <= |pattern| && Laid(Bytes(), rd, holes, Vars().(laststart := at))
      requires EndsExact(rd.branch) ==> at == laststart
      modifies this, buffer, mem
      ensures buffer == old(buffer) || fresh(buffer)
      ensures e == NoError || e == ESpace || e == ESize
      ensures (e == ESpace) == mem.failed
      ensures e == NoError ==> Valid() && p == old(p) && rd == AddLiteral(old(rd), Literal(c, quoted), Peek(pattern, p))
      ensures e == ESize ==> old(b) + MOST > MAX_BUF_SIZE
    {
      hide Laid, Joins, Separates;
      var next := Peek(pattern, p);
      ghost var code, v, lit := Bytes(), Vars().(laststart := at), Literal(c, quoted);
      PendingTest(code, rd, holes, v, next);
      if pending == -1 || pending + buffer[pending] + 1 != b || buffer[pending] == 255 || Separates(next) {
        e := StartExact(c);
        if e != NoError {
          return;
        }
        NewExact(code, rd, holes, v, lit);
        rd := Push(rd, Exact([lit]));
      } else {
        e := BufPush([c]);
        if e != NoError {
          return;
        }
        buffer[pending] := buffer[pending] + 1;
        assert Bytes() == code[pending := code[pending] + 1] + [c];
        JoinExact(code, rd, holes, v, lit, next);
        rd := AddLiteral(rd, lit, next);
      }
    }

    // ---- repetition ----

    /** Put the jumps of a loop or an optional expression around the last expression. */
    method InsertLoop(zero: bool, many: bool) returns (e: ErrorCode)
      requires !mem.failed && Room() && 0 <= laststart <= b
      modifies `b, `buffer, `pending, buffer, mem
      ensures Room() && (buffer == old(buffer) || fresh(buffer))
      ensures e == NoError || e == ESpace || e == ESize
      ensures (e == ESpace) == mem.failed
      ensures e == NoError ==>
              && old(b) <= b && Bytes() == old(Bytes())[..laststart] + RepeatCode(old(Bytes())[laststart..], zero, many) && pending == -1
      ensures e == ESize ==> old(b) + MOST > MAX_BUF_SIZE
    {
      hide RepeatCode, Op1, Inserted;
      ghost var was := Bytes();
      if many {
        e := GetBufferSpace(3);
        if e != NoError {
          return;
        }
        AppendOp1(MAYBE_POP_JUMP, laststart - 3 - b - 3);
      }
      e := GetBufferSpace(3);
      if e != NoError {
        return;
      }
      GrowOp1(ON_FAILURE_JUMP, laststart, b + 3 - laststart - 3);
      pending := -1;
      if !zero {
        e := GetBufferSpace(3);
        if e != NoError {
          return;
        }
        GrowOp1(DUMMY_FAILURE_JUMP, laststart, laststart + 6 - laststart - 3);
      }
      LoopBytes(was, laststart, zero, many);
    }

    /** Read a run of repetition operators. */
    method ReadRun(first: byte) returns (zero: bool, many: bool)
      requires 0 < p <= |pattern| && pattern[p - 1] == first && IsOp(first)
      modifies `p
      ensures var ops := ReadOps(pattern, old(p) - 1);
              zero == ZeroOk(ops) && many == ManyOk(ops) && p == old(p) - 1 + |ops| && p <= |pattern|
    {
      hide IsOp, ZeroOk, ManyOk, ReadOps;
      var c := first;
      ghost var ops: seq<RepeatOp> := [];
      ghost var start := p - 1;
      zero, many := false, false;
      NoFlags();
      while true
        invariant start < p <= |pattern| && c == pattern[p - 1] && IsOp(c) && p == start + |ops| + 1
        invariant ReadOps(pattern, start) == ops + ReadOps(pattern, p - 1)
        invariant zero == ZeroOk(ops) && many == ManyOk(ops)
        decreases |pattern| - p
        modifies `p
      {
        OpFlags(ops, c);
        OpsUnfold(pattern, p - 1);
        zero, many := zero || c != PLUS, many || c != QUEST;
        ops := ops + [OpOf(c)];
        if p == |pattern| {
          OpsEnd(pattern, p);
          break;
        }
        c := pattern[p];
        p := p + 1;
        if !IsOp(c) {
          p := p - 1;
          OpsEnd(pattern, p);
          break;
        }
      }
      assert ops == ReadOps(pattern, start);
    }

    /** `*`, `+` and `?`: collapse a run of them into one. */
    method HandleRepeat(first: byte) returns (e: ErrorCode)
      requires !mem.failed && Valid() && 0 < p && pattern[p - 1] == first && IsOp(first)
      modifies this, buffer, mem
      ensures buffer == old(buffer) || fresh(buffer)
      ensures e == NoError || e == ESpace || e == ESize
      ensures (e == ESpace) == mem.failed
      ensures e == NoError ==>
              var ops := ReadOps(pattern, old(p) - 1); Valid() && p == old(p) - 1 + |ops| && rd == Repeated(old(rd), ops)
      ensures e == ESize ==> old(b) + MOST > MAX_BUF_SIZE
    {
      hide Laid, IsOp, ReadOps, ZeroOk, ManyOk, RepeatCode, Repeated;
      ghost var ops := ReadOps(pattern, p - 1);
      var zero, many := ReadRun(first);
      LaidLast(Bytes(), rd, holes, Vars());
      if laststart == -1 {
        SkipRun(Bytes(), rd, holes, Vars(), ops);
        rd := Repeated(rd, ops);
        return NoError;
      }
      ghost var code, v := Bytes(), Vars();
      e := InsertLoop(zero, many);
      if e == NoError {
        RepeatLast(code, rd, holes, v, ops);
        rd := Repeated(rd, ops);
      }
    }

    // ---- intervals ----

    /** GET_UNSIGNED_NUMBER: the value of the digits at `p`, and the last character fetched. */
    method GetUnsignedNumber(last: byte) returns (num: int, c: byte)
      requires p <= |pattern|
      modifies `p
      ensures var digits := ReadDigits(pattern, old(p));
              var q := old(p) + |digits|;
              && num == (if |digits| == 0 then -1 else Number(digits))
              && (if old(p) == |pattern| then p == old(p) && c == last
                  else if q == |pattern| then p == q && IsDigit(c)
                  else p == q + 1 && c == pattern[q])
    {
      hide Number, ReadDigits, IsDigit;
      num, c := -1, last;
      if p == |pattern| {
        DigitsEnd(pattern, p);
      } else {
        ghost var digits: seq<byte> := [];
        c := pattern[p];
        p := p + 1;
        while IsDigit(c)
          invariant old(p) < p <= |pattern| && c == pattern[p - 1] && p == old(p) + |digits| + 1
          invariant ReadDigits(pattern, old(p)) == digits + ReadDigits(pattern, p - 1)
          invariant num == if |digits| == 0 then -1 else Number(digits)
          invariant forall k :: 0 <= k < |digits| ==> IsDigit(digits[k])
          decreases |pattern| - p
          modifies `p
        {
          NumberPositive(digits);
          if num < 0 {
            num := 0;
          }
          num := num * 10 + c as int - 48;
          NumberSnoc(digits, c);
          DigitsUnfold(pattern, p - 1);
          digits := digits + [c];
          if p == |pattern| {
            DigitsEnd(pattern, p);
            assert ReadDigits(pattern, old(p)) == digits;
            return;
          }
          c := pattern[p];
          p := p + 1;
        }
        DigitsEnd(pattern, p - 1);
        assert ReadDigits(pattern, old(p)) == digits;
      }
    }

    /** The bounds of an interval, if it is one. */
    method GetBounds() returns (valid: bool, lower: int, upper: int)
      requires 0 < p <= |pattern|
      modifies `p
      ensures p <= |pattern|
      ensures valid <==> ReadBraces(pattern, old(p)).Some?
      ensures valid ==>
              var r := ReadBraces(pattern, old(p)).value;
              p == r.p && lower == Number(r.lower) && upper == UpperOf(Interval(Skipped([]), r.lower, r.upper)) && BoundsOk(r.lower, r.upper)
    {
      hide ReadDigits, Number;
      lower, upper := -1, -1;
      if p == |pattern| {
        return false, lower, upper;
      }
      var c;
      ghost var start, digits := p, ReadDigits(pattern, p);
      lower, c := GetUnsignedNumber(LBRACE);
      ghost var q := p;
      if c == COMMA {
        ghost var more := ReadDigits(pattern, p);
        upper, c := GetUnsignedNumber(c);
        if upper < 0 {
          upper := RE_DUP_MAX;
        }
        NumberPositive(digits);
        NumberPositive(more);
      } else {
        upper := lower;
        NumberPositive(digits);
      }
      if lower < 0 || upper > RE_DUP_MAX || lower > upper {
        return false, lower, upper;
      }
      if c != RBRACE {
        return false, lower, upper;
      }
      return true, lower, upper;
    }

    /** Put the commands of an interval around the last expression. */
    method InsertInterval(lower: int, upper: int) returns (e: ErrorCode)
      requires !mem.failed && Room() && 0 <= laststart <= b && 0 <= upper
      modifies `b, `buffer, buffer, mem
      ensures Room() && (buffer == old(buffer) || fresh(buffer))
      ensures e == NoError || e == ESpace || e == ESize
      ensures (e == ESpace) == mem.failed
      ensures e == NoError ==>
              Bytes() == old(Bytes())[..laststart] + IntervalCode(old(Bytes())[laststart..], lower, upper)
      ensures e == ESize ==> old(b) + MOST > MAX_BUF_SIZE
    {
      hide IntervalCode, Op1, Op2, Inserted;
      ghost var was := Bytes();
      if upper == 0 {
        e := GetBufferSpace(3);
        if e != NoError {
          return;
        }
        GrowOp1(JUMP, laststart, b + 3 - laststart - 3);
      } else {
        e := GetBufferSpace(if upper > 1 then 20 else 10);
        if e != NoError {
          return;
        }
        GrowOp2(SUCCEED_N, laststart, b + 5 + (if upper > 1 then 5 else 0) - laststart - 3, lower);
        GrowOp2(SET_NUMBER_AT, laststart, 5, lower);
        if upper > 1 {
          AppendOp2(JUMP_N, laststart + 5 - b - 3, upper - 1);
          GrowOp2(SET_NUMBER_AT, laststart, b - laststart, upper - 1);
        }
      }
      IntervalBytes(was, laststart, lower, upper);
    }

    /** `{`: an interval, or an ordinary character where it does not make a valid one. */
    method HandleInterval() returns (e: ErrorCode)
      requires !mem.failed && Valid() && 0 < p && pattern[p - 1] == LBRACE
      modifies this, buffer, mem
      ensures buffer == old(buffer) || fresh(buffer)
      ensures e == NoError || e == ESpace || e == ESize
      ensures (e == ESpace) == mem.failed
      ensures e == NoError ==>
              && Valid()
              && match ReadBraces(pattern, old(p))
                 case Some(r) => p == r.p && rd == Counted(old(rd), r.lower, r.upper)
                 case None => p == old(p) && rd == AddLiteral(old(rd), Literal(LBRACE, false), Peek(pattern, p))
      ensures e == ESize ==> old(b) + MOST > MAX_BUF_SIZE
    {
      hide Laid, ReadBraces, Number;
      var begInterval := p - 1;
      var valid, lower, upper := GetBounds();
      if !valid {
        p := begInterval + 1;
        e := NormalChar(LBRACE, false, laststart);
        return;
      }
      ghost var r := ReadBraces(pattern, old(p)).value;
      e := CountLastOne(lower, upper, r.lower, r.upper);
    }

    /** The interval is put around the last expression, or around nothing. */
    method CountLastOne(lower: int, upper: int, ghost low: seq<byte>, ghost up: UpperBound) returns (e: ErrorCode)
      requires !mem.failed && Valid() && 0 <= lower <= upper <= RE_DUP_MAX
      requires var n := Interval(Skipped([]), low, up); lower == LowerOf(n) && upper == UpperOf(n)
      modifies `buffer, `b, `laststart, `pending, `rd, buffer, mem
      ensures buffer == old(buffer) || fresh(buffer)
      ensures e == NoError || e == ESpace || e == ESize
      ensures (e == ESpace) == mem.failed
      ensures e == NoError ==> Valid() && rd == Counted(old(rd), low, up)
      ensures e == ESize ==> old(b) + MOST > MAX_BUF_SIZE
    {
      hide Laid, LowerOf, UpperOf, IntervalCode, Counted;
      ghost var code, v := Bytes(), Vars();
      LaidLast(code, rd, holes, v);
      if laststart == -1 {
        laststart := b;
      }
      e := InsertInterval(lower, upper);
      if e == NoError {
        pending := -1;
        CountLast(code, rd, holes, v, low, up);
        rd := Counted(rd, low, up);
      }
    }

    // ---- `.` and bracket expressions ----

    method HandleDot() returns (e: ErrorCode)
      requires !mem.failed && Valid()
      modifies this, buffer, mem
      ensures buffer == old(buffer) || fresh(buffer)
      ensures e == NoError || e == ESpace || e == ESize
      ensures (e == ESpace) == mem.failed
      ensures e == NoError ==> Valid() && p == old(p) && rd == Push(old(rd), AnyChar)
      ensures e == ESize ==> old(b) + MOST > MAX_BUF_SIZE
    {
      hide Laid;
      ghost var code, v := Bytes(), Vars();
      laststart := b;
      e := BufPush([ANYCHAR]);
      if e == NoError {
        LaidPush(code, rd, holes, v, AnyChar);
        rd := Push(rd, AnyChar);
      }
    }

    /** The bitmap being filled, behind the commands finished so far. */
    ghost function Map(): (m: seq<byte>)
      requires b + 32 <= buffer.Length
      reads `buffer, `b, buffer
      ensures |m| == 32
    {
      buffer[b..b + 32]
    }

    /** SET_LIST_BIT. */
    method SetListBit(c: byte)
      requires b + 32 <= buffer.Length
      modifies buffer
      ensures Map() == SetBit(old(Map()), c) && buffer[..b] == old(buffer[..b])
    {
      buffer[b + c / 8] := OrByte(buffer[b + c / 8], c % 8);
      assert Map() == SetBit(old(Map()), c);
    }

    /** `compile_range`: the range ends with the character at `p` and starts two characters before it. */
    method CompileRange() returns (e: ErrorCode)
      requires b + 32 <= buffer.Length && 2 <= p <= |pattern|
      modifies `p, buffer
      ensures buffer[..b] == old(buffer[..b]) && p <= |pattern|
      ensures if RangeOk(pattern, pattern[old(p) - 2], old(p)) then
                e == NoError && p == old(p) + 1 && Map() == SetRange(old(Map()), pattern[p - 3], pattern[p - 1])
              else e == ERange
    {
      hide SetRange, SetBit;
      if p == |pattern| {
        return ERange;
      }
      var start, end := pattern[p - 2], pattern[p];
      p := p + 1;
      if start > end {
        return ERange;
      }
      var ch: nat := start;
      while ch <= end
        invariant start <= ch <= end + 1
        invariant SetRange(Map(), ch, end) == SetRange(old(Map()), start, end)
        invariant buffer[..b] == old(buffer[..b])
        decreases end + 1 - ch
        modifies buffer
      {
        RangeStep(Map(), ch, end);
        SetListBit(ch);
        ch := ch + 1;
      }
      RangeDone(Map(), ch, end);
      return NoError;
    }

    /** The letters behind `[:`; the character that ends them has been read as well. */
    method ReadClassName() returns (str: seq<byte>)
      requires p < |pattern|
      modifies `p
      ensures str == ClassName(pattern, old(p), CLASS_MAX) && p == old(p) + |str| + 1 <= |pattern|
    {
      hide ClassName;
      str := [];
      while true
        invariant p == old(p) + |str| < |pattern| && |str| <= CLASS_MAX
        invariant ClassName(pattern, old(p), CLASS_MAX) == str + ClassName(pattern, p, CLASS_MAX - |str|)
        decreases |pattern| - p
        modifies `p
      {
        ClassNameStep(pattern, p, str);
        var c := pattern[p];
        p := p + 1;
        if c == COLON || c == RBRACKET || p == |pattern| || |str| == CLASS_MAX {
          return;
        }
        str := str + [c];
      }
    }

    /** The bits of all characters in a class. */
    method SetClassBits(name: seq<byte>)
      requires b + 32 <= buffer.Length
      modifies buffer
      ensures Map() == SetClass(old(Map()), name, 0) && buffer[..b] == old(buffer[..b])
    {
      hide InClass, SetBit;
      for ch := 0 to 256
        invariant SetClass(Map(), name, ch) == SetClass(old(Map()), name, 0) && buffer[..b] == old(buffer[..b])
        modifies buffer
      {
        if InClass(name, ch) {
          SetListBit(ch);
        }
      }
    }

    /** A character class, or the two characters `[:` when it is none; the first of them has been read. */
    method ReadClassItem() returns (e: ErrorCode, hadClass: bool, ghost more: seq<SetItem>)
      requires b + 32 <= buffer.Length && p < |pattern| && pattern[p] == COLON
      modifies `p, buffer
      ensures buffer[..b] == old(buffer[..b]) && p <= |pattern|
      ensures match ReadClass(pattern, old(p) + 1)
              case ClassAt(name, end) =>
                e == NoError && hadClass && more == [Class(name)] && p == end && Map() == SetOne(old(Map()), Class(name))
              case NoClass =>
                e == NoError && !hadClass && more == [One(LBRACKET), One(COLON)] && p == old(p) + 1 &&
                Map() == SetOne(SetOne(old(Map()), One(LBRACKET)), One(COLON))
              case BadClass(error) => e == error
    {
      hide ClassName, IsCharClass, SetClass, SetBit;
      e, hadClass, more := NoError, false, [];
      p := p + 1;
      if p == |pattern| {
        return EBrack, false, [];
      }
      var str := ReadClassName();
      if pattern[p - 1] == COLON && Peek(pattern, p) == RBRACKET {
        if !IsCharClass(str) {
          return ECtype, false, [];
        }
        p := p + 1;
        if p == |pattern| {
          return EBrack, false, [];
        }
        SetClassBits(str);
        hadClass, more := true, [Class(str)];
      } else {
        p := p - (|str| + 1);
        SetListBit(LBRACKET);
        SetListBit(COLON);
        more := [One(LBRACKET), One(COLON)];
      }
    }

    /** One turn of the loop over the list. */
    method ReadItem(had: bool) returns (e: ErrorCode, hadClass: bool, ghost more: seq<SetItem>)
      requires b + 32 <= buffer.Length && 1 <= p < |pattern|
      modifies `p, buffer
      ensures buffer[..b] == old(buffer[..b]) && p <= |pattern|
      ensures match NextItems(pattern, old(p), had)
              case ItemsRead(items, end, flag) =>
                e == NoError && more == items && p == end && hadClass == flag && Map() == SetAll(old(Map()), items)
              case BadItem(error) => e == error
    {
      hide RangeOk, SetBit, SetRange, ReadClass, SetClass;
      e, hadClass, more := NoError, had, [];
      var c := pattern[p];
      p := p + 1;
      if hadClass && c == MINUS && Peek(pattern, p) != RBRACKET {
        e := ERange;
      } else if c == MINUS && !(p >= 2 && pattern[p - 2] == LBRACKET) &&
         !(p >= 3 && pattern[p - 3] == LBRACKET && pattern[p - 2] == CARET) && Peek(pattern, p) != RBRACKET {
        e := CompileRange();
        if e == NoError {
          more := [More(pattern[p - 3], pattern[p - 1])];
        }
      } else if Peek(pattern, p) == MINUS && Peek(pattern, p + 1) != RBRACKET {
        p := p + 1;
        e := CompileRange();
        if e == NoError {
          more := [Range(pattern[p - 3], pattern[p - 1])];
        }
      } else if c == LBRACKET && Peek(pattern, p) == COLON {
        e, hadClass, more := ReadClassItem();
      } else {
        hadClass := false;
        SetListBit(c);
        more := [One(c)];
      }
    }

    /** Read the list of a bracket expression up to its end. */
    method ReadList(first: nat) returns (e: ErrorCode, ghost items: seq<SetItem>)
      requires b + 32 <= buffer.Length && 1 <= first == p <= |pattern| && Map() == Bitmap([])
      modifies `p, buffer
      ensures buffer[..b] == old(buffer[..b]) && p <= |pattern|
      ensures match ReadItems(pattern, first, first, [], false)
              case Items(its, end) => e == NoError && items == its && p == end && Map() == Bitmap(its)
              case BadBracket(error) => e == error
    {
      hide NextItems, Bitmap, SetAll;
      items := [];
      var hadClass := false;
      while true
        invariant first <= p <= |pattern| && Map() == Bitmap(items)
        invariant ReadItems(pattern, first, p, items, hadClass) == ReadItems(pattern, first, first, [], false)
        invariant buffer[..b] == old(buffer[..b])
        decreases |pattern| - p
        modifies `p, buffer
      {
        if p == |pattern| {
          return EBrack, items;
        }
        if pattern[p] == RBRACKET && p != first {
          p := p + 1;
          return NoError, items;
        }
        ghost var more;
        e, hadClass, more := ReadItem(hadClass);
        if e != NoError {
          return;
        }
        BitmapMore(items, more);
        items := items + more;
      }
    }

    /** Drop the zero bytes at the end of the bitmap. */
    method TrimMap()
      requires 0 < b && b + 32 <= buffer.Length && buffer[b - 1] == 32
      modifies buffer
      ensures buffer[..b - 1] == old(buffer[..b - 1]) && buffer[b..b + 32] == old(buffer[b..b + 32])
      ensures buffer[b - 1] == |Trim(Map())|
    {
      assert Map()[..32] == Map();
      while buffer[b - 1] > 0 && buffer[b + buffer[b - 1] as int - 1] == 0
        invariant buffer[b - 1] <= 32 && buffer[..b - 1] == old(buffer[..b - 1]) && Map() == old(Map())
        invariant Trim(Map()) == Trim(Map()[..buffer[b - 1]])
        decreases buffer[b - 1]
        modifies buffer
      {
        assert Map()[buffer[b - 1] as int - 1] == 0;
        TrimLast(Map()[..buffer[b - 1]]);
        assert Map()[..buffer[b - 1] - 1] == Map()[..buffer[b - 1]][..buffer[b - 1] - 1];
        buffer[b - 1] := buffer[b - 1] - 1;
      }
      assert buffer[b - 1] > 0 ==> Map()[buffer[b - 1] as int - 1] != 0;
      TrimDone(Map()[..buffer[b - 1]]);
    }

    method HandleBracket() returns (e: ErrorCode)
      requires !mem.failed && Valid() && 0 < p && pattern[p - 1] == LBRACKET
      modifies this, buffer, mem
      ensures buffer == old(buffer) || fresh(buffer)
      ensures e == NoError ==> Valid() && NextBracket(pattern, old(p), old(rd)) == Go(rd, p)
      ensures e == NoError || e == ESpace || e == ESize || NextBracket(pattern, old(p), old(rd)) == Stop(e)
      ensures (e == ESpace) == mem.failed
      ensures e == ESize ==> old(b) + MOST > MAX_BUF_SIZE
    {
      hide Laid, ReadItems, Bitmap, Trim, NextBracket, CodeNode, Push;
      BracketCases(pattern, p, rd);
      if p == |pattern| {
        return EBrack;
      }
      ghost var code, v := Bytes(), Vars();
      var negated := pattern[p] == CARET;
      e := StartBracket(negated);
      if e != NoError {
        return;
      }
      if negated {
        p := p + 1;
      }
      ghost var items;
      e, items := ReadList(p);
      if e != NoError {
        return;
      }
      FinishBracket(code, v, negated, items);
    }

    /** The command, the length of a full bitmap and an empty bitmap behind it. */
    method StartBracket(negated: bool) returns (e: ErrorCode)
      requires !mem.failed && Room()
      modifies `b, `buffer, `laststart, buffer, mem
      ensures Room() && (buffer == old(buffer) || fresh(buffer))
      ensures e == NoError || e == ESpace || e == ESize
      ensures (e == ESpace) == mem.failed
      ensures e == NoError ==>
              && b == old(b) + 2 && b + 32 <= buffer.Length && laststart == old(b)
              && Bytes() == old(Bytes()) + [if negated then CHARSET_NOT else CHARSET, 32] && Map() == Bitmap([])
      ensures e == ESize ==> old(b) + MOST > MAX_BUF_SIZE
    {
      e := GetBufferSpace(34);
      if e != NoError {
        return;
      }
      laststart := b;
      ghost var was := Bytes();
      Put(if negated then CHARSET_NOT else CHARSET);
      Put(32);
      assert Bytes() == was + [if negated then CHARSET_NOT else CHARSET, 32];
      ClearMap();
    }

    /** Clear the whole map. */
    method ClearMap()
      requires Room() && b + 32 <= buffer.Length
      modifies buffer
      ensures Room() && Bytes() == old(Bytes()) && Map() == Bitmap([])
    {
      forall i | b <= i < b + 32 {
        buffer[i] := 0;
      }
      EmptyBitmap();
      assert Bytes() == old(Bytes());
    }

    /** The bracket expression is finished; `code` and `v` are what was there before it. */
    method FinishBracket(ghost code: seq<byte>, ghost v: Pointers, negated: bool, ghost items: seq<SetItem>)
      requires Room() && b + 32 <= buffer.Length && Map() == Bitmap(items) && Laid(code, rd, holes, v)
      requires Bytes() == code + [if negated then CHARSET_NOT else CHARSET, 32] && Vars() == v.(laststart := |code|)
      modifies `b, `rd, buffer
      ensures Room() && rd == Push(old(rd), CharSet(negated, items)) && Laid(Bytes(), rd, holes, Vars())
    {
      hide Laid, Push, CodeNode, Bitmap;
      LaidPush(code, rd, holes, v, CharSet(negated, items));
      rd := Push(rd, CharSet(negated, items));
      CompleteBracket(code, negated, items);
    }

    /** Drop the zero bytes and step over the rest. */
    method CompleteBracket(ghost code: seq<byte>, negated: bool, ghost items: seq<SetItem>)
      requires Room() && b + 32 <= buffer.Length && Map() == Bitmap(items)
      requires Bytes() == code + [if negated then CHARSET_NOT else CHARSET, 32]
      modifies `b, buffer
      ensures Room() && Bytes() == code + CodeNode(CharSet(negated, items), 0)
    {
      hide Bitmap, Trim, CodeNode;
      ghost var bm, op := Map(), if negated then CHARSET_NOT else CHARSET;
      assert buffer[b - 1] == Bytes()[b - 1];
      assert Bytes()[..b - 1] == code + [op];
      TrimMap();
      BracketCode(negated, items, bm);
      BracketBytes(buffer[..], b, code, op, bm);
      b := b + buffer[b - 1] as int;
    }

    // ---- groups and alternatives ----

    method HandleOpen() returns (e: ErrorCode)
      requires !mem.failed && Valid()
      modifies this, buffer, mem
      ensures buffer == old(buffer) || fresh(buffer)
      ensures e == NoError || e == ESpace || e == ESize
      ensures (e == ESpace) == mem.failed
      ensures e == NoError ==> Valid() && p == old(p) && rd == Opening(old(rd))
      ensures e == ESize ==> old(b) + MOST > MAX_BUF_SIZE
    {
      hide Laid, Opening;
      ghost var code, v := Bytes(), Vars();
      regnum := regnum + 1;
      var ok := mem.Request();
      if !ok {
        return ESpace;
      }
      var saved := Saved(begalt, fixup + 1, b, b + 2, regnum);
      if regnum <= MAX_REGNUM {
        e := BufPush([START_MEMORY, regnum, 0]);
        if e != NoError {
          return;
        }
      }
      assert Bytes() == code + StartBytes(regnum);
      PushGroup(saved, code, v);
      return NoError;
    }

    /** Save the pointers and start an empty alternative. */
    method PushGroup(saved: Saved, ghost code: seq<byte>, ghost v: Pointers)
      requires Room() && Laid(code, rd, holes, v) && regnum == v.regnum + 1 && Bytes() == code + StartBytes(regnum)
      requires stack == v.saved && saved == Saved(v.begalt, v.fixup + 1, |code|, |code| + 2, regnum) && p <= |pattern|
      modifies `stack, `fixup, `laststart, `pending, `begalt, `rd, `holes
      ensures Valid() && rd == Opening(old(rd))
    {
      hide Laid, Opening;
      stack := stack + [saved];
      fixup, laststart, pending := -1, -1, -1;
      begalt := b;
      LaidOpen(code, rd, holes, v, |code| + 2, [0, 0, 0]);
      rd, holes := Opening(rd), Holes(holes.outer + [holes.inner], [0, 0, 0]);
    }

    /** Fill in the jump behind the last finished alternative, if there is one: it goes to `to`. */
    method StoreFixup(to: int)
      requires Room() && (fixup == -1 || (0 <= fixup && fixup + 3 <= b))
      modifies buffer
      ensures Room() && b == old(b)
      ensures Bytes() == Patched(old(Bytes()), fixup, Op1(JUMP_PAST_ALT, to - fixup - 3))
    {
      if fixup != -1 {
        StoreOp1(JUMP_PAST_ALT, fixup, to - fixup - 3);
        assert buffer[..b] == old(buffer[..fixup]) + Op1(JUMP_PAST_ALT, to - fixup - 3) + old(buffer[fixup + 3..b]);
      }
    }

    /** The end of the alternatives of a group or, after a bracket too many, of the pattern so far. */
    method EndAlternatives() returns (e: ErrorCode)
      requires !mem.failed && Valid()
      modifies `b, `buffer, `holes, buffer, mem
      ensures buffer == old(buffer) || fresh(buffer)
      ensures e == NoError || e == ESpace || e == ESize
      ensures (e == ESpace) == mem.failed
      ensures e == NoError ==>
              && Room() && b == old(b) + (if |rd.done| > 0 then 1 else 0)
              && Laid(buffer[..old(b)], rd, holes, Vars())
              && Bytes() == buffer[..old(b)] + (if |rd.done| > 0 then [PUSH_DUMMY_FAILURE] else [])
              && (|rd.done| > 0 ==>
                    holes.inner == Op1(JUMP_PAST_ALT, |CodeBranch(rd.branch, Base(rd.stack) + GroupsAlts(rd.done))|))
      ensures e == ESize ==> old(b) + MOST > MAX_BUF_SIZE
    {
      hide Laid, CodeBranch, GroupsAlts, Base, Op1, Patched;
      ghost var code, v := Bytes(), Vars();
      ghost var jump := Op1(JUMP_PAST_ALT, |CodeBranch(rd.branch, Base(rd.stack) + GroupsAlts(rd.done))|);
      LaidFill(code, rd, holes, v, jump);
      if fixup != -1 {
        e := BufPush([PUSH_DUMMY_FAILURE]);
        if e != NoError {
          return;
        }
        StoreFixup(b - 1);
        PatchedFront(code, [PUSH_DUMMY_FAILURE], fixup, jump);
        assert buffer[..old(b)] == Bytes()[..old(b)];
        holes := holes.(inner := jump);
      }
      e := NoError;
    }

    /** `)`: the end of a group, or an ordinary character where no group is open. */
    method HandleClose() returns (e: ErrorCode)
      requires !mem.failed && Valid()
      modifies this, buffer, mem
      ensures buffer == old(buffer) || fresh(buffer)
      ensures e == NoError || e == ESpace || e == ESize
      ensures (e == ESpace) == mem.failed
      ensures e == NoError ==>
              Valid() && p == old(p) && rd == if |old(rd).stack| > 0 then Closing(old(rd)) else Unmatched(old(rd), Peek(pattern, p))
      ensures e == ESize ==> old(b) + 1 + MOST > MAX_BUF_SIZE
    {
      hide Laid, CodeBranch, GroupsAlts, Base, Unmatched, Closing, Op1;
      SavedLength(Bytes(), rd, holes, Vars());
      e := EndAlternatives();
      if e != NoError {
        return;
      }
      if |stack| == 0 {
        e := UnmatchedClose(buffer[..old(b)]);
      } else {
        e := PopGroup(buffer[..old(b)]);
      }
    }

    /** An ordinary closing bracket.  `code` is the buffer without the push_dummy_failure just added. */
    method UnmatchedClose(ghost code: seq<byte>) returns (e: ErrorCode)
      requires !mem.failed && Room() && p <= |pattern| && Laid(code, rd, holes, Vars())
      requires Bytes() == code + if |rd.done| > 0 then [PUSH_DUMMY_FAILURE] else []
      modifies this, buffer, mem
      ensures buffer == old(buffer) || fresh(buffer)
      ensures e == NoError || e == ESpace || e == ESize
      ensures (e == ESpace) == mem.failed
      ensures e == NoError ==> Valid() && p == old(p) && rd == Unmatched(old(rd), Peek(pattern, p))
      ensures e == ESize ==> old(b) + MOST > MAX_BUF_SIZE
    {
      hide Laid, AddLiteral;
      ghost var at := laststart;
      if |rd.done| > 0 {
        LaidPush(code, rd, holes, Vars(), Stray);
        rd, at := Push(rd, Stray), |code|;
        assert CodeNode(Stray, 0) == [PUSH_DUMMY_FAILURE];
        assert rd.branch[|rd.branch| - 1] == Stray;
      } else {
        assert Bytes() == code;
      }
      e := NormalChar(CLOSE, false, at);
    }

    /** Restore what was saved when the group opened, fill in its number of inner groups and end it. */
    method PopGroup(ghost code: seq<byte>) returns (e: ErrorCode)
      requires !mem.failed && Room() && p <= |pattern| && Laid(code, rd, holes, Vars()) && |stack| > 0 && |rd.stack| > 0
      requires Bytes() == code + if |rd.done| > 0 then [PUSH_DUMMY_FAILURE] else []
      requires |rd.done| > 0 ==> holes.inner == Op1(JUMP_PAST_ALT, |CodeBranch(rd.branch, Base(rd.stack) + GroupsAlts(rd.done))|)
      modifies this, buffer, mem
      ensures buffer == old(buffer) || fresh(buffer)
      ensures e == NoError || e == ESpace || e == ESize
      ensures (e == ESpace) == mem.failed
      ensures e == NoError ==> Valid() && p == old(p) && rd == Closing(old(rd))
      ensures e == ESize ==> old(b) + MOST > MAX_BUF_SIZE
    {
      hide Laid, CodeBranch, GroupsAlts, Base, Closing, Op1, ClosedCode, SavedAllOk;
      ghost var v := Vars();
      SavedLength(code, rd, holes, v);
      LaidClose(code, rd, holes, v);
      var saved := stack[|stack| - 1];
      stack := stack[..|stack| - 1];
      begalt, fixup, laststart := saved.begaltOffset, saved.fixupAltJump - 1, saved.laststartOffset;
      pending := -1;
      e := EndGroup(saved, code, v);
      if e != NoError {
        return;
      }
      holes := Holes(holes.outer[..|rd.stack| - 1], holes.outer[|rd.stack| - 1]);
      rd := Closing(rd);
      e := NoError;
    }

    /** The number of inner groups goes into the start_memory, and the stop_memory is added. */
    method EndGroup(saved: Saved, ghost code: seq<byte>, ghost v: Pointers) returns (e: ErrorCode)
      requires !mem.failed && Room() && Bytes() == code + if |rd.done| > 0 then [PUSH_DUMMY_FAILURE] else []
      requires |v.saved| > 0 && saved == v.saved[|v.saved| - 1] && regnum == v.regnum && saved.regnum <= regnum
      requires saved.regnum <= MAX_REGNUM ==> 0 <= saved.innerGroupOffset < |code|
      modifies `b, `buffer, buffer, mem
      ensures Room() && (buffer == old(buffer) || fresh(buffer))
      ensures e == NoError || e == ESpace || e == ESize
      ensures (e == ESpace) == mem.failed
      ensures e == NoError ==> Bytes() == ClosedCode(code, rd.done, v)
      ensures e == ESize ==> old(b) + MOST > MAX_BUF_SIZE
    {
      if saved.regnum <= MAX_REGNUM {
        var nested: byte := (regnum - saved.regnum) % 256;
        ghost var was := Bytes();
        buffer[saved.innerGroupOffset] := nested;
        assert Bytes() == was[saved.innerGroupOffset := nested];
        e := BufPush([STOP_MEMORY, saved.regnum, nested]);
      } else {
        e := NoError;
      }
    }

    /** `|`: a choice in front of the alternative just read, a jump behind it. */
    method HandleAlt() returns (e: ErrorCode)
      requires !mem.failed && Valid()
      modifies this, buffer, mem
      ensures buffer == old(buffer) || fresh(buffer)
      ensures e == NoError || e == ESpace || e == ESize
      ensures (e == ESpace) == mem.failed
      ensures e == NoError ==> Valid() && p == old(p) && rd == Alternative(old(rd))
      ensures e == ESize ==> old(b) + MOST > MAX_BUF_SIZE
    {
      hide Laid, CodeBranch, GroupsAlts, Base, Alternative, Op1, Inserted;
      ghost var was;
      e, was := InsertChoice();
      if e != NoError {
        return;
      }
      ghost var v := Vars().(pending := old(pending));
      ghost var next;
      e, next := LeaveHole();
      if e != NoError {
        return;
      }
      LaidAlternative(rd, holes, v, next, was, Bytes());
      rd, holes := Alternative(rd), holes.(inner := next);
    }

    /** The choice in front of the alternative just read and the jump behind the one before it.
        `was` is the buffer with that jump and without the choice. */
    method InsertChoice() returns (e: ErrorCode, ghost was: seq<byte>)
      requires !mem.failed && Valid()
      modifies `b, `buffer, `pending, `holes, buffer, mem
      ensures Room() && (buffer == old(buffer) || fresh(buffer))
      ensures e == NoError || e == ESpace || e == ESize
      ensures (e == ESpace) == mem.failed
      ensures e == NoError ==>
              var c := CodeBranch(rd.branch, Base(rd.stack) + GroupsAlts(rd.done));
              && b == old(b) + 3 && pending == -1 && 0 <= begalt <= |was|
              && Laid(was, rd, holes, Vars().(pending := old(pending)))
              && Bytes() == Inserted(was, begalt, Op1(ON_FAILURE_JUMP, |c| + 3))
              && (|rd.done| > 0 ==> holes.inner == Op1(JUMP_PAST_ALT, |c| + 3))
      ensures e == ESize ==> old(b) + MOST > MAX_BUF_SIZE
    {
      hide Laid, CodeBranch, GroupsAlts, Base, Op1, Inserted, Patched;
      ghost var code, v := Bytes(), Vars();
      ghost var c := CodeBranch(rd.branch, Base(rd.stack) + GroupsAlts(rd.done));
      ghost var jump := Op1(JUMP_PAST_ALT, |c| + 3);
      LaidFill(code, rd, holes, v, jump);
      was := Patched(code, fixup, jump);
      e := ChoiceBytes();
      if e == NoError && |rd.done| > 0 {
        holes := holes.(inner := jump);
      }
    }

    method ChoiceBytes() returns (e: ErrorCode)
      requires !mem.failed && Room() && 0 <= begalt <= b && (fixup == -1 || (0 <= fixup && fixup + 3 == begalt))
      modifies `b, `buffer, `pending, buffer, mem
      ensures Room() && (buffer == old(buffer) || fresh(buffer))
      ensures e == NoError || e == ESpace || e == ESize
      ensures (e == ESpace) == mem.failed
      ensures e == NoError ==>
              var n := old(b) - begalt;
              && b == old(b) + 3 && pending == -1
              && Bytes() == Inserted(Patched(old(Bytes()), fixup, Op1(JUMP_PAST_ALT, n + 3)), begalt, Op1(ON_FAILURE_JUMP, n + 3))
      ensures e == ESize ==> old(b) + MOST > MAX_BUF_SIZE
    {
      hide Op1, Inserted, Patched;
      ghost var code, n := Bytes(), b - begalt;
      e := GetBufferSpace(3);
      if e != NoError {
        return;
      }
      GrowOp1(ON_FAILURE_JUMP, begalt, b + 6 - begalt - 3);
      pending := -1;
      StoreFixup(b);
      AlternativeBytes(code, fixup, begalt, Op1(JUMP_PAST_ALT, n + 3), Op1(ON_FAILURE_JUMP, n + 3));
      PatchedNone(Inserted(code, begalt, Op1(ON_FAILURE_JUMP, n + 3)));
    }

    /** Mark and leave space for the jump behind the alternative; the next one starts there. */
    method LeaveHole() returns (e: ErrorCode, ghost hole: seq<byte>)
      requires !mem.failed && Room()
      modifies `b, `buffer, `fixup, `laststart, `begalt, mem
      ensures Room() && (buffer == old(buffer) || fresh(buffer))
      ensures e == NoError || e == ESpace || e == ESize
      ensures (e == ESpace) == mem.failed
      ensures e == NoError ==> b == old(b) + 3 && |hole| == 3 && Bytes() == old(Bytes()) + hole && fixup == old(b) && laststart == -1 && begalt == b
      ensures e == ESize ==> old(b) + 3 > MAX_BUF_SIZE
    {
      hole := [];
      fixup := b;
      e := GetBufferSpace(3);
      if e == NoError {
        hole := buffer[b..b + 3];
        assert buffer[..b + 3] == Bytes() + hole;
        b := b + 3;
        laststart := -1;
        begalt := b;
      }
    }

    // ---- characters behind a backslash ----

    /** `group_in_compile_stack`. */
    method GroupInCompileStack(n: nat) returns (found: bool)
      requires Valid()
      ensures found == InStack(rd.stack, n)
    {
      hide Laid, Base;
      SavedLength(Bytes(), rd, holes, Vars());
      var i := |stack|;
      assert rd.stack[..i] == rd.stack;
      while i > 0
        invariant 0 <= i <= |stack| == |rd.stack| && InStack(rd.stack, n) == InStack(rd.stack[..i], n)
      {
        SavedRegnum(stack, rd.stack, holes.outer, i - 1);
        InStackTop(rd.stack, i, n);
        i := i - 1;
        if stack[i].regnum == n {
          return true;
        }
      }
      return false;
    }

    method HandleBackslash() returns (e: ErrorCode)
      requires !mem.failed && Valid()
      modifies this, buffer, mem
      ensures buffer == old(buffer) || fresh(buffer)
      ensures e == NoError ==> Valid() && old(p) < |pattern| && NextQuoted(pattern, old(p), old(rd)) == Go(rd, p)
      ensures (e == ESpace) == mem.failed
      ensures e == NoError || e == ESpace || e == ESize ||
              (if old(p) == |pattern| then e == EEscape else NextQuoted(pattern, old(p), old(rd)) == Stop(e))
      ensures e == ESize ==> old(b) + MOST > MAX_BUF_SIZE
    {
      hide Laid, AddLiteral, NextQuoted;
      if p == |pattern| {
        return EEscape;
      }
      var c := pattern[p];
      e := CheckQuoted(c);
      if e == NoError {
        p := p + 1;
        e := NormalChar(c, true, laststart);
      }
    }

    /** Which characters after a backslash stand for themselves. */
    method CheckQuoted(c: byte) returns (e: ErrorCode)
      requires Valid() && p < |pattern| && c == pattern[p]
      ensures e == NoError ==> NextQuoted(pattern, p, rd) == Go(AddLiteral(rd, Literal(c, true), Peek(pattern, p + 1)), p + 1)
      ensures e != NoError ==> e != ESpace && e != ESize && NextQuoted(pattern, p, rd) == Stop(e)
    {
      hide Laid, AddLiteral, Opened, InStack, NextQuoted, IsWordOp;
      QuotedCases(pattern, p, rd);
      RegnumIs(Bytes(), rd, holes, Vars());
      var inside := GroupInCompileStack(if c < 48 then 0 else c - 48);
      if IsWordOp(c) {
        return Unmodelled;
      }
      if IsDigit(c) && c != 48 {
        if c - 48 > regnum {
          return ESubReg;
        }
        if !inside {
          return Unmodelled;
        }
      }
      return NoError;
    }

    // ---- the whole pattern ----

    /** One turn of the main loop: read one construct and compile it. */
    method Step() returns (e: ErrorCode)
      requires !mem.failed && Valid() && p < |pattern|
      modifies this, buffer, mem
      ensures buffer == old(buffer) || fresh(buffer)
      ensures e == NoError ==> Valid() && ReadNext(pattern, old(p), old(rd)) == Go(rd, p)
      ensures e == NoError || e == ESpace || e == ESize || ReadNext(pattern, old(p), old(rd)) == Stop(e)
      ensures (e == ESpace) == mem.failed
      ensures e == ESize ==> old(b) + 1 + MOST > MAX_BUF_SIZE
    {
      hide Laid, IsOp, AddLiteral, Repeated, Counted, Opening, Closing, Alternative, Unmatched, ReadOps, ReadBraces, NextQuoted, NextBracket, Push;
      StepCases(pattern, p, rd);
      var c := pattern[p];
      p := p + 1;
      if c == CARET || c == DOLLAR {
        e := Unmodelled;
      } else if IsOp(c) {
        e := HandleRepeat(c);
      } else if c == DOT {
        e := HandleDot();
      } else if c == LBRACKET {
        e := HandleBracket();
      } else if c == OPEN {
        e := HandleOpen();
      } else if c == CLOSE {
        e := HandleClose();
      } else if c == BAR {
        e := HandleAlt();
      } else if c == LBRACE {
        e := HandleInterval();
      } else if c == BACKSLASH {
        e := HandleBackslash();
      } else {
        e := NormalChar(c, false, laststart);
      }
    }

    /** The main loop and the end of `regex_compile`. */
    method Run() returns (e: ErrorCode)
      requires !mem.failed && Valid() && p == 0 && rd == Reader([], [], [])
      modifies this, buffer, mem
      ensures buffer == old(buffer) || fresh(buffer)
      ensures e == NoError ==>
              b <= buffer.Length <= MAX_BUF_SIZE && ReadPattern(pattern).Read? && buffer[..b] == CodeAlts(ReadPattern(pattern).alts, 0)
      ensures e == NoError || e == ESpace || e == ESize || ReadPattern(pattern) == Failed(e)
      ensures (e == ESpace) == mem.failed
      ensures e == ESize ==> Outgrows(pattern, 1 + MOST, MAX_BUF_SIZE)
      ensures e == ESize && ReadPattern(pattern).Read? ==> |CodeAlts(ReadPattern(pattern).alts, 0)| + 1 + MOST > MAX_BUF_SIZE
    {
      hide Laid, ReadNext, CodeAlts, CodeBranch, GroupsAlts, CodeSize, Outgrows;
      ghost var n: nat := 0;
      while p != |pattern|
        invariant Valid() && ReadFrom(pattern, p, rd) == ReadPattern(pattern) && ReadUpTo(pattern, n) == Go(rd, p)
        invariant !mem.failed && (buffer == old(buffer) || fresh(buffer))
        decreases |pattern| - p
      {
        ghost var next := ReadNext(pattern, p, rd);
        LaidSize(Bytes(), rd, holes, Vars());
        e := Step();
        if e != NoError {
          if e == ESize {
            TooLong(pattern, n, 1 + MOST, MAX_BUF_SIZE);
          }
          return;
        }
        n := n + 1;
      }
      ghost var code, v := Bytes(), Vars();
      ghost var jump := Op1(JUMP_PAST_ALT, |CodeBranch(rd.branch, Base(rd.stack) + GroupsAlts(rd.done))|);
      LaidFill(code, rd, holes, v, jump);
      SavedLength(code, rd, holes, v);
      StoreFixup(b);
      if |stack| > 0 {
        return EParen;
      }
      LaidAll(Bytes(), rd, if |rd.done| > 0 then holes.(inner := jump) else holes, v);
      return NoError;
    }
  }

  // ---- what the steps do to the layout ----

  lemma InsertedAt(front: seq<byte>, c: seq<byte>, x: seq<byte>)
    ensures Inserted(front + c, |front|, x) == front + (x + c)
  {}

  lemma LoopBytes(was: seq<byte>, at: nat, zero: bool, many: bool)
    requires at <= |was|
    ensures var c := was[at..];
            var s1 := if many then was + Op1(MAYBE_POP_JUMP, -|c| - 6) else was;
            var s2 := Inserted(s1, at, Op1(ON_FAILURE_JUMP, |s1| - at));
            var s3 := if zero then s2 else Inserted(s2, at, Op1(DUMMY_FAILURE_JUMP, 3));
            s3 == was[..at] + RepeatCode(c, zero, many)
  {
    hide Op1, Inserted, RepeatCode;
    var front, c := was[..at], was[at..];
    var back := if many then Op1(MAYBE_POP_JUMP, -|c| - 6) else [];
    assert was == front + c;
    InsertedBehind(front, c, back, Op1(ON_FAILURE_JUMP, |c| + |back|));
    InsertedAt(front, Op1(ON_FAILURE_JUMP, |c| + |back|) + c + back, Op1(DUMMY_FAILURE_JUMP, 3));
    RepeatCodeIs(c, zero, many, back);
  }

  lemma InsertedBehind(front: seq<byte>, c: seq<byte>, back: seq<byte>, x: seq<byte>)
    ensures Inserted(front + c + back, |front|, x) == front + (x + c + back)
    ensures back == [] ==> Inserted(front + c, |front|, x) == front + (x + c + back)
  {
    assert (front + c + back)[|front|..] == c + back;
    if back == [] {
      assert front + c + back == front + c;
    }
  }

  lemma IntervalBytes(was: seq<byte>, at: nat, lower: int, upper: int)
    requires at <= |was| && 0 <= upper
    ensures var c := was[at..];
            var s1 := Inserted(was, at, Op2(SUCCEED_N, |c| + (if upper > 1 then 7 else 2), lower));
            var s2 := Inserted(s1, at, Op2(SET_NUMBER_AT, 5, lower));
            var s3 := s2 + Op2(JUMP_N, -|c| - 8, upper - 1);
            (if upper == 0 then Inserted(was, at, Op1(JUMP, |c|)) else if upper == 1 then s2
             else Inserted(s3, at, Op2(SET_NUMBER_AT, |c| + 15, upper - 1)))
            == was[..at] + IntervalCode(c, lower, upper)
  {
    hide Op1, Op2, Inserted;
    var front, c := was[..at], was[at..];
    assert was == front + c;
    if upper == 0 {
      InsertedAt(front, c, Op1(JUMP, |c|));
    } else {
      var a, s, j := Op2(SET_NUMBER_AT, 5, lower), Op2(SUCCEED_N, |c| + (if upper > 1 then 7 else 2), lower), Op2(JUMP_N, -|c| - 8, upper - 1);
      InsertedAt(front, c, s);
      InsertedAt(front, s + c, a);
      assert a + (s + c) == a + s + c;
      if upper > 1 {
        assert front + (a + s + c) + j == front + (a + s + c + j);
        var b := Op2(SET_NUMBER_AT, |c| + 15, upper - 1);
        InsertedAt(front, a + s + c + j, b);
        assert b + (a + s + c + j) == b + a + s + c + j;
      }
    }
  }

  lemma NoFlags()
    ensures !ZeroOk([]) && !ManyOk([])
  {}

  lemma SkipRun(code: seq<byte>, rd: Reader, holes: Holes, v: Pointers, ops: seq<RepeatOp>)
    requires Laid(code, rd, holes, v) && v.laststart == -1
    ensures Laid(code, Repeated(rd, ops), holes, v)
  {
    hide Laid;
    LaidLast(code, rd, holes, v);
    LaidSkip(code, rd, holes, v, ops);
  }

  lemma RepeatCodeIs(c: seq<byte>, zero: bool, many: bool, back: seq<byte>)
    requires back == if many then Op1(MAYBE_POP_JUMP, -|c| - 6) else []
    ensures var once := Op1(ON_FAILURE_JUMP, |c| + |back|) + c + back;
            RepeatCode(c, zero, many) == if zero then once else Op1(DUMMY_FAILURE_JUMP, 3) + once
  {
    assert Op1(ON_FAILURE_JUMP, |c|) + c + [] == Op1(ON_FAILURE_JUMP, |c|) + c;
  }

  /** The test on the count byte tells whether the character joins the `exactn` before it. */
  lemma PendingTest(code: seq<byte>, rd: Reader, holes: Holes, v: Pointers, next: byte)
    requires Laid(code, rd, holes, v)
    ensures v.pending == -1 || 0 <= v.pending < |code|
    ensures v.pending == -1 || v.pending + code[v.pending] + 1 != |code| || code[v.pending] == 255 || Separates(next) <==>
            !Joins(rd.branch, next)
  {
    hide SavedAllOk, LevelCode, OpenAlts, OpenHead, CodeBranch;
    if EndsExact(rd.branch) {
      ExactAtEnd(code, StackCode(rd.stack, holes.outer), Base(rd.stack), rd.done, rd.branch, holes.inner, v);
    }
  }

  lemma NewExact(code: seq<byte>, rd: Reader, holes: Holes, v: Pointers, lit: Literal)
    requires Laid(code, rd, holes, v)
    ensures Laid(code + [EXACTN, 1, lit.c], Push(rd, Exact([lit])), holes, v.(laststart := |code|, pending := |code| + 1))
  {
    hide Laid;
    LaidPush(code, rd, holes, v, Exact([lit]));
    assert Chars([lit]) == [lit.c];
    assert CodeNode(Exact([lit]), 0) == [EXACTN, 1, lit.c];
  }

  lemma JoinExact(code: seq<byte>, rd: Reader, holes: Holes, v: Pointers, lit: Literal, next: byte)
    requires Laid(code, rd, holes, v) && Joins(rd.branch, next)
    ensures 0 <= v.pending < |code| && code[v.pending] < 255 && EndsExact(rd.branch)
    ensures Laid(code[v.pending := code[v.pending] + 1] + [lit.c], AddLiteral(rd, lit, next), holes, v)
  {
    hide Laid, Joins, AddLiteral, HasLast, Groups;
    JoinFacts(code, rd, holes, v, next);
    JoinsIs(rd, lit, next);
    JoinWith(code, rd, holes, v, rd.branch[|rd.branch| - 1], lit);
  }

  lemma JoinWith(code: seq<byte>, rd: Reader, holes: Holes, v: Pointers, last: Node, lit: Literal)
    requires Laid(code, rd, holes, v) && HasLast(rd.branch) && |rd.branch| > 0 && last == rd.branch[|rd.branch| - 1]
    requires last.Exact? && 1 <= |last.lits| < 255 && v.pending == v.laststart + 1 && Groups(last) == 0
    requires 0 <= v.pending < |code| && code[v.pending] < 255
    ensures Laid(code[v.pending := code[v.pending] + 1] + [lit.c], ReplaceLast(rd, Exact(last.lits + [lit])), holes, v)
  {
    hide Laid, CodeNode, HasLast, Before, Groups, ReplaceLast;
    var n := Exact(last.lits + [lit]);
    LaidLast(code, rd, holes, v);
    JoinCode(last.lits, lit, Before(rd));
    JoinBytes(code, v.laststart, lit.c);
    NoGroupsIn(n);
    LaidReplace(code, rd, holes, v, n, v.pending);
    assert v.(pending := v.pending) == v;
  }

  lemma NoGroupsIn(n: Node)
    requires n.Exact?
    ensures Groups(n) == 0
  {}

  lemma JoinsIs(rd: Reader, lit: Literal, next: byte)
    requires Joins(rd.branch, next)
    ensures |rd.branch| > 0 && EndsExact(rd.branch)
    ensures AddLiteral(rd, lit, next) == ReplaceLast(rd, Exact(rd.branch[|rd.branch| - 1].lits + [lit]))
  {}

  lemma JoinBytes(code: seq<byte>, at: nat, c: byte)
    requires at + 1 < |code| && code[at + 1] < 255
    ensures var last := code[at..];
            code[at + 1 := code[at + 1] + 1] + [c] == code[..at] + (last[1 := last[1] + 1] + [c])
  {
    assert code == code[..at] + code[at..];
  }

  lemma JoinFacts(code: seq<byte>, rd: Reader, holes: Holes, v: Pointers, next: byte)
    requires Laid(code, rd, holes, v) && Joins(rd.branch, next)
    ensures var last := rd.branch[|rd.branch| - 1];
            HasLast(rd.branch) && last.Exact? && 1 <= |last.lits| < 255 && v.pending == v.laststart + 1 && Groups(last) == 0
    ensures 0 <= v.pending < |code| && code[v.pending] < 255
  {
    hide SavedAllOk, LevelCode, OpenAlts, OpenHead, CodeBranch;
    ExactAtEnd(code, StackCode(rd.stack, holes.outer), Base(rd.stack), rd.done, rd.branch, holes.inner, v);
  }

  lemma OpFlags(ops: seq<RepeatOp>, c: byte)
    requires IsOp(c)
    ensures ZeroOk(ops + [OpOf(c)]) <==> ZeroOk(ops) || c != PLUS
    ensures ManyOk(ops + [OpOf(c)]) <==> ManyOk(ops) || c != QUEST
  {
    FlagsSnoc(ops, OpOf(c));
  }

  lemma OpsUnfold(pattern: seq<byte>, p: nat)
    requires p < |pattern| && IsOp(pattern[p])
    ensures ReadOps(pattern, p) == [OpOf(pattern[p])] + ReadOps(pattern, p + 1)
  {}

  lemma OpsEnd(pattern: seq<byte>, p: nat)
    requires p == |pattern| || (p < |pattern| && !IsOp(pattern[p]))
    ensures ReadOps(pattern, p) == []
  {}

  lemma RepeatLast(code: seq<byte>, rd: Reader, holes: Holes, v: Pointers, ops: seq<RepeatOp>)
    requires Laid(code, rd, holes, v) && v.laststart != -1
    ensures 0 <= v.laststart <= |code|
    ensures Laid(code[..v.laststart] + RepeatCode(code[v.laststart..], ZeroOk(ops), ManyOk(ops)), Repeated(rd, ops), holes, v.(pending := -1))
  {
    hide Laid, RepeatCode, ZeroOk, ManyOk;
    LaidLast(code, rd, holes, v);
    LaidReplace(code, rd, holes, v, Repeat(rd.branch[|rd.branch| - 1], ops), -1);
  }

  lemma CountLast(code: seq<byte>, rd: Reader, holes: Holes, v: Pointers, lower: seq<byte>, upper: UpperBound)
    requires Laid(code, rd, holes, v)
    ensures v.laststart == -1 || 0 <= v.laststart <= |code|
    ensures var at := if v.laststart == -1 then |code| else v.laststart;
            var n := Interval(Skipped([]), lower, upper);
            Laid(code[..at] + IntervalCode(code[at..], LowerOf(n), UpperOf(n)), Counted(rd, lower, upper), holes,
                 v.(laststart := at, pending := -1))
  {
    hide Laid, IntervalCode, Number;
    LaidLast(code, rd, holes, v);
    if v.laststart == -1 {
      LaidCountedNone(code, rd, holes, v, lower, upper);
      assert code[..|code|] == code && code[|code|..] == [];
    } else {
      LaidReplace(code, rd, holes, v, Interval(rd.branch[|rd.branch| - 1], lower, upper), -1);
    }
  }

  lemma NumberSnoc(digits: seq<byte>, c: byte)
    ensures Number(digits + [c]) == (if |digits| == 0 then 0 else Number(digits)) * 10 + c as int - 48
  {
    assert (digits + [c])[..|digits|] == digits;
  }

  lemma DigitsUnfold(pattern: seq<byte>, p: nat)
    requires p < |pattern| && IsDigit(pattern[p])
    ensures ReadDigits(pattern, p) == [pattern[p]] + ReadDigits(pattern, p + 1)
  {}

  lemma DigitsEnd(pattern: seq<byte>, p: nat)
    requires p == |pattern| || (p < |pattern| && !IsDigit(pattern[p]))
    ensures ReadDigits(pattern, p) == []
  {}

  lemma {:induction false} NumberPositive(digits: seq<byte>)
    requires forall k :: 0 <= k < |digits| ==> IsDigit(digits[k])
    ensures Number(digits) >= 0
  {
    if |digits| > 0 {
      NumberPositive(digits[..|digits| - 1]);
    }
  }

  // ---- bracket expressions ----

  lemma BitmapSnoc(items: seq<SetItem>, item: SetItem)
    ensures Bitmap(items + [item]) == SetOne(Bitmap(items), item)
  {
    assert (items + [item])[..|items|] == items;
  }

  lemma ClassNameStep(pattern: seq<byte>, p: nat, str: seq<byte>)
    requires p < |pattern| && |str| <= CLASS_MAX
    ensures var c, name := pattern[p], ClassName(pattern, p, CLASS_MAX - |str|);
            if c == COLON || c == RBRACKET || p + 1 == |pattern| || |str| == CLASS_MAX then str + name == str
            else str + name == (str + [c]) + ClassName(pattern, p + 1, CLASS_MAX - |str + [c]|)
  {}

  /** The bits of the items read in one turn: one, or two characters. */
  function SetAll(bm: seq<byte>, more: seq<SetItem>): (r: seq<byte>)
    requires |bm| == 32 && 1 <= |more| <= 2
    ensures |r| == 32
  {
    if |more| == 1 then SetOne(bm, more[0]) else SetOne(SetOne(bm, more[0]), more[1])
  }

  lemma BitmapMore(items: seq<SetItem>, more: seq<SetItem>)
    requires 1 <= |more| <= 2
    ensures Bitmap(items + more) == SetAll(Bitmap(items), more)
  {
    hide Bitmap, SetOne;
    BitmapSnoc(items, more[0]);
    if |more| == 1 {
      assert more == [more[0]];
    } else {
      BitmapSnoc(items + [more[0]], more[1]);
      assert items + more == items + [more[0]] + [more[1]];
    }
  }

  lemma EmptyBitmap()
    ensures Bitmap([]) == seq(32, _ => 0)
  {}

  lemma TrimLast(bm: seq<byte>)
    requires |bm| > 0 && bm[|bm| - 1] == 0
    ensures Trim(bm) == Trim(bm[..|bm| - 1])
  {}

  lemma TrimDone(bm: seq<byte>)
    requires |bm| == 0 || bm[|bm| - 1] != 0
    ensures Trim(bm) == bm
  {}

  lemma TrimPrefix(bm: seq<byte>)
    ensures |Trim(bm)| <= |bm| && Trim(bm) == bm[..|Trim(bm)|]
  {}

  /** What reading a bracket expression comes to. */
  lemma BracketCases(pattern: seq<byte>, p: nat, rd: Reader)
    requires p <= |pattern|
    ensures p == |pattern| ==> NextBracket(pattern, p, rd) == Stop(EBrack)
    ensures p < |pattern| ==>
            var negated := pattern[p] == CARET;
            var first := if negated then p + 1 else p;
            var r := ReadItems(pattern, first, first, [], false);
            && NextBracket(pattern, p, rd) == (if r.Items? then Go(Push(rd, CharSet(negated, r.items)), r.p) else Stop(r.error))
            && (r.BadBracket? ==> r.error != NoError && r.error != ESpace && r.error != ESize)
  {
    hide ReadItems;
  }

  lemma RangeStep(bm: seq<byte>, lo: nat, hi: nat)
    requires |bm| == 32 && lo <= hi < 256
    ensures SetRange(bm, lo, hi) == SetRange(SetBit(bm, lo), lo + 1, hi)
  {
    hide SetBit;
  }

  lemma RangeDone(bm: seq<byte>, lo: nat, hi: nat)
    requires |bm| == 32 && hi < lo && hi < 256
    ensures SetRange(bm, lo, hi) == bm
  {}

  lemma BracketBytes(s: seq<byte>, b: nat, code: seq<byte>, op: byte, bm: seq<byte>)
    requires 0 < b && b + 32 <= |s| && |bm| == 32 && s[..b - 1] == code + [op] && s[b..b + 32] == bm && s[b - 1] == |Trim(bm)|
    ensures s[..b + |Trim(bm)|] == code + ([op, s[b - 1]] + Trim(bm))
  {
    hide Trim;
    TrimPrefix(bm);
    assert s[b..b + |Trim(bm)|] == s[b..b + 32][..|Trim(bm)|] == Trim(bm);
    assert s[..b + |Trim(bm)|] == s[..b - 1] + [s[b - 1]] + s[b..b + |Trim(bm)|];
  }

  lemma BracketCode(negated: bool, items: seq<SetItem>, bm: seq<byte>)
    requires bm == Bitmap(items)
    ensures |Trim(bm)| <= 32
    ensures CodeNode(CharSet(negated, items), 0) == [if negated then CHARSET_NOT else CHARSET, |Trim(bm)| as byte] + Trim(bm)
  {}

  // ---- groups and alternatives ----

  lemma SavedLength(code: seq<byte>, rd: Reader, holes: Holes, v: Pointers)
    requires Laid(code, rd, holes, v)
    ensures |v.saved| == |rd.stack| == |holes.outer| && SavedAllOk(v.saved, rd.stack, holes.outer)
  {
    hide LevelLaid;
  }

  lemma {:induction false} SavedRegnum(saved: seq<Saved>, stack: seq<Frame>, holes: seq<seq<byte>>, i: nat)
    requires |holes| == |stack| && SavedAllOk(saved, stack, holes) && i < |stack|
    ensures saved[i].regnum == Base(stack[..i + 1])
  {
    hide SavedAllOk, SavedOk, Base;
    var n := |stack|;
    SavedSplit(saved, stack, holes);
    if i == n - 1 {
      TopRegnum(saved[i], stack, holes);
      assert stack[..n] == stack;
    } else {
      SavedRegnum(saved[..n - 1], stack[..n - 1], holes[..n - 1], i);
      assert stack[..n - 1][..i + 1] == stack[..i + 1];
    }
  }

  lemma SavedSplit(saved: seq<Saved>, stack: seq<Frame>, holes: seq<seq<byte>>)
    requires |holes| == |stack| > 0 && SavedAllOk(saved, stack, holes)
    ensures var n := |stack|;
            && |saved| == n && SavedOk(saved[n - 1], stack[..n - 1], holes[..n - 1], stack[n - 1], holes[n - 1])
            && SavedAllOk(saved[..n - 1], stack[..n - 1], holes[..n - 1])
  {
    hide SavedOk;
  }

  lemma TopRegnum(s: Saved, stack: seq<Frame>, holes: seq<seq<byte>>)
    requires |holes| == |stack| > 0
    requires var n := |stack|; SavedOk(s, stack[..n - 1], holes[..n - 1], stack[n - 1], holes[n - 1])
    ensures s.regnum == Base(stack)
  {
    hide StackCode, LevelCode, OpenHead, OpenAlts, LevelGroups;
  }

  lemma InStackTop(stack: seq<Frame>, i: nat, n: nat)
    requires 0 < i <= |stack|
    ensures InStack(stack[..i], n) <==> Base(stack[..i]) == n || InStack(stack[..i - 1], n)
  {
    assert stack[..i][..i - 1] == stack[..i - 1];
  }

  /** Storing a jump and inserting behind it can be done in either order. */
  lemma AlternativeBytes(code: seq<byte>, fixup: int, begalt: int, jump: seq<byte>, choice: seq<byte>)
    requires fixup == -1 || (0 <= fixup && fixup + 3 == begalt && |jump| == 3)
    requires 0 <= begalt <= |code|
    ensures Patched(Inserted(code, begalt, choice), fixup, jump) == Inserted(Patched(code, fixup, jump), begalt, choice)
  {
    if fixup != -1 {
      var now, was := Inserted(code, begalt, choice), Patched(code, fixup, jump);
      assert was[..begalt] == code[..fixup] + jump && was[begalt..] == code[begalt..];
      assert now[..fixup] == code[..fixup] && now[fixup + 3..] == choice + code[begalt..];
    }
  }

  lemma PatchedNone(s: seq<byte>)
    ensures forall x :: Patched(s, -1, x) == s
  {}

  lemma PatchedFront(code: seq<byte>, back: seq<byte>, fixup: int, jump: seq<byte>)
    requires 0 <= fixup && fixup + 3 <= |code| && |jump| == 3
    ensures Patched(code + back, fixup, jump) == Patched(code, fixup, jump) + back
    ensures Patched(code + back, fixup, jump)[..|code|] == Patched(code, fixup, jump)
  {
    assert (code + back)[fixup + 3..] == code[fixup + 3..] + back;
  }

  lemma RegnumIs(code: seq<byte>, rd: Reader, holes: Holes, v: Pointers)
    requires Laid(code, rd, holes, v)
    ensures v.regnum == Opened(rd)
  {
    hide SavedAllOk, LevelLaid, Opened;
  }

  lemma QuotedCases(pattern: seq<byte>, p: nat, rd: Reader)
    requires p < |pattern|
    ensures var c, next := pattern[p], NextQuoted(pattern, p, rd);
            if IsWordOp(c) then next == Stop(Unmodelled)
            else if IsDigit(c) && c != 48 && c as int - 48 > Opened(rd) then next == Stop(ESubReg)
            else if IsDigit(c) && c != 48 && !InStack(rd.stack, (c as int - 48) as nat) then next == Stop(Unmodelled)
            else next == Go(AddLiteral(rd, Literal(c, true), Peek(pattern, p + 1)), p + 1)
  {
    hide Opened, InStack, AddLiteral;
  }

  /** The turn of the main loop, case by case. */
  lemma StepCases(pattern: seq<byte>, p: nat, rd: Reader)
    requires p < |pattern|
    ensures var c, next := pattern[p], ReadNext(pattern, p, rd);
            if c == CARET || c == DOLLAR then next == Stop(Unmodelled)
            else if IsOp(c) then next == Go(Repeated(rd, ReadOps(pattern, p)), p + |ReadOps(pattern, p)|)
            else if c == DOT then next == Go(Push(rd, AnyChar), p + 1)
            else if c == LBRACKET then next == NextBracket(pattern, p + 1, rd)
            else if c == OPEN then next == Go(Opening(rd), p + 1)
            else if c == CLOSE then
              next == Go(if |rd.stack| > 0 then Closing(rd) else Unmatched(rd, Peek(pattern, p + 1)), p + 1)
            else if c == BAR then next == Go(Alternative(rd), p + 1)
            else if c == LBRACE && ReadBraces(pattern, p + 1).Some? then
              var r := ReadBraces(pattern, p + 1).value; next == Go(Counted(rd, r.lower, r.upper), r.p)
            else if c == BACKSLASH then next == (if p + 1 == |pattern| then Stop(EEscape) else NextQuoted(pattern, p + 1, rd))
            else next == Go(AddLiteral(rd, Literal(c, false), Peek(pattern, p + 1)), p + 1)
  {}
}
