/** Every command `re_match_2` executes keeps the leaves still to be explored. */
module MatchSteps {
  import opened Bytes
  import opened Opcodes
  import opened Machine
  import opened WellFormed
  import opened Traces
  import opened Paths
  import opened MatchSpec

  // ---- reading commands from the rewritten program ----

  /** Opcodes that a phase can meet. */
  predicate Expected(phase: Phase, op: byte) {
    match phase
    case Entry => op == EXACTN || op == ANYCHAR || op == CHARSET || op == CHARSET_NOT || op == START_MEMORY || op == STOP_MEMORY ||
      op == PUSH_DUMMY_FAILURE || op == JUMP_PAST_ALT || op == ON_FAILURE_JUMP || op == DUMMY_FAILURE_JUMP || op == SET_NUMBER_AT
    case Body => op == EXACTN || op == ANYCHAR || op == CHARSET || op == CHARSET_NOT
    case Taking(_) => op == EXACTN || op == ANYCHAR || op == CHARSET || op == CHARSET_NOT
    case LoopBack => op == MAYBE_POP_JUMP || op == POP_FAILURE_JUMP || op == JUMP
    case Second => op == SET_NUMBER_AT
    case Counting(_) => op == SUCCEED_N
    case NoOps(_, _) => op == NO_OP
    case Again(_) => op == JUMP_N
  }

  /** Bytes of a span that are neither a loop's jump nor part of a counter are as compiled. */
  lemma PlainByte(buf: seq<byte>, code: seq<byte>, x: set<int>, p: int, i: int)
    requires Variant(buf, code, x) && p in x && p <= i < p + Span(code, p)
    requires !(IsLoop(code, p) && i == LoopEnd(code, p)) && !(IsInterval(code, p) && CounterByte(code, p, i))
    ensures 0 <= i < |code| && buf[i] == code[i]
  {
    hide Span, IsLoop, IsInterval, CounterByte;
    assert SpanOk(buf, code, p);
    assert ByteOk(buf, code, p, i);
  }

  lemma EntryByte(buf: seq<byte>, code: seq<byte>, x: set<int>, p: int)
    requires Variant(buf, code, x) && p in x && 0 <= p < |code|
    ensures buf[p] == code[p]
  {
    hide Span, Extract, OneChar, Variant;
    PlainByte(buf, code, x, p, p);
  }

  lemma ZeroCount(s: seq<byte>, i: nat)
    requires i + 1 < |s| && Extract(s, i) == 0
    ensures s[i] == 0 && s[i + 1] == 0
  {}

  lemma EntryOp(code: seq<byte>, x: set<int>, p: int)
    requires Closed(code, x) && p in x
    ensures Fits(code, p) && Expected(Entry, code[p])
  {
    hide Extract, OneChar, IsLoop, IsInterval;
    assert WfAt(code, p, x + {|code|});
  }

  lemma PhaseOp(buf: seq<byte>, code: seq<byte>, x: set<int>, phase: Phase, entry: int, p: int)
    requires Closed(code, x) && Variant(buf, code, x) && Placed(buf, code, x, phase, entry, p) && p != |code|
    ensures 0 <= p < |code| && Expected(phase, buf[p])
    ensures !phase.LoopBack? && !phase.NoOps? ==> buf[p] == code[p]
  {
    hide Closed, Variant, Extract, OpLen, Span;
    match phase
    case Entry =>
      EntryOp(code, x, p);
      EntryByte(buf, code, x, p);
    case Body => LoopBytes(buf, code, x, entry);
    case LoopBack => LoopBytes(buf, code, x, entry);
    case Second => IntervalBytes(buf, code, x, entry);
    case Counting(_) => IntervalBytes(buf, code, x, entry);
    case NoOps(_, _) => ZeroCount(buf, CountPos(code, entry) + 3);
    case Taking(_) => IntervalBytes(buf, code, x, entry);
    case Again(_) => IntervalBytes(buf, code, x, entry);
  }

  lemma LoopBytes(buf: seq<byte>, code: seq<byte>, x: set<int>, q: int)
    requires Variant(buf, code, x) && q in x && IsLoop(code, q)
    ensures var m := LoopEnd(code, q);
            && (buf[m] == MAYBE_POP_JUMP || buf[m] == Decided(code, q))
            && (forall i :: q <= i < m + 3 && i != m ==> buf[i] == code[i])
  {
    assert Span(code, q) == LoopEnd(code, q) + 3 - q;
    assert !IsInterval(code, q);
    assert SpanOk(buf, code, q);
    hide Span, Extract, OneChar, Variant, Pops, IsInterval, IsLoop;
    var m := LoopEnd(code, q);
    assert ByteOk(buf, code, q, m);
    forall i | q <= i < m + 3 && i != m
      ensures buf[i] == code[i]
    {
      assert ByteOk(buf, code, q, i);
    }
  }

  lemma IntervalBytes(buf: seq<byte>, code: seq<byte>, x: set<int>, p: int)
    requires Variant(buf, code, x) && p in x && IsInterval(code, p) && 0 <= p < |code| && code[p] == SET_NUMBER_AT
    ensures IntervalExit(code, p) <= |buf| == |code|
    ensures forall i :: p <= i < IntervalExit(code, p) && !CounterByte(code, p, i) ==> buf[i] == code[i]
  {
    assert !IsLoop(code, p);
    assert Span(code, p) == IntervalExit(code, p) - p;
    assert SpanOk(buf, code, p);
    hide Span, Extract, OneChar, Variant, IsInterval, IsLoop, CounterByte;
    forall i | p <= i < IntervalExit(code, p) && !CounterByte(code, p, i)
      ensures buf[i] == code[i]
    {
      assert ByteOk(buf, code, p, i);
    }
  }

  // ---- commands that match characters ----

  function CharCount(code: seq<byte>, p: int): nat
    requires Fits(code, p)
  {
    if code[p] == EXACTN then code[p + 1] else 1
  }

  /** The characters from `d` on are the ones the command at `p` wants. */
  predicate CharsAt(code: seq<byte>, p: int, t: seq<byte>, d: int)
    requires Fits(code, p) && 0 <= d
  {
    var n := CharCount(code, p);
    if code[p] == EXACTN then d + n <= |t| && t[d..d + n] == code[p + 2..p + 2 + n]
    else OneChar(code, p) && TakesAt(code, p, t, d)
  }

  lemma CharsAtOne(code: seq<byte>, p: int, t: seq<byte>, d: int)
    requires OneChar(code, p) && 0 <= d
    ensures CharsAt(code, p, t, d) <==> TakesAt(code, p, t, d)
    ensures CharCount(code, p) == 1
  {
    if code[p] == EXACTN && d < |t| {
      assert t[d..d + 1] == [t[d]] && code[p + 2..p + 3] == [code[p + 2]];
    }
  }

  /** Where a state goes once the characters of its command have been matched. */
  function AfterChar(code: seq<byte>, phase: Phase, entry: int, p: int): (Phase, int)
    requires Fits(code, p) && (phase.Taking? ==> IsInterval(code, entry))
  {
    match phase
    case Body => (LoopBack, entry)
    case Taking(k) => if IsIntervalOne(code, entry) then (Entry, IntervalExit(code, entry)) else (Again(k + 1), entry)
    case _ => (Entry, p + OpLen(code, p))
  }

  ghost predicate CharStepOk(buf: seq<byte>, code: seq<byte>, x: set<int>, t: seq<byte>, phase: Phase, entry: int, p: int, d: int,
                             stack: seq<FailurePoint>)
    requires StateOk(buf, code, x, t, phase, entry, p, d, stack)
    requires (phase.Entry? || phase.Body? || phase.Taking?) && Fits(code, p)
  {
    if CharsAt(code, p, t, d) then
      var (next, at) := AfterChar(code, phase, entry, p);
      var p', d' := p + OpLen(code, p), d + CharCount(code, p);
      && StateOk(buf, code, x, t, next, at, p', d', stack)
      && Rest(buf, code, x, t, next, at, p', d', stack) == Rest(buf, code, x, t, phase, entry, p, d, stack)
    else
      Rest(buf, code, x, t, phase, entry, p, d, stack) == [Dead] + StackTrace(code, x, t, stack)
  }

  lemma DecodeChars(code: seq<byte>, p: int)
    requires Fits(code, p) && Expected(Body, code[p])
    ensures var next := p + OpLen(code, p);
            Decode(code, p) == if code[p] == EXACTN then Match(code[p + 1], next) else Take(next)
  {}

  lemma TraceChars(code: seq<byte>, x: set<int>, t: seq<byte>, p: int, d: int)
    requires Closed(code, x) && p in x && 0 <= d <= |t|
    requires Fits(code, p) && Expected(Body, code[p])
    ensures Standing(code, x, t, p, d)
    ensures GoesOn(code, x, t, p, d, p + OpLen(code, p), CharCount(code, p), CharsAt(code, p, t, d))
  {
    hide Closed, Decode, Takes, OneChar, IsLoop, IsInterval, OpLen, Expected, Leaves, GoesOn;
    DecodeChars(code, p);
    if code[p] == EXACTN {
      LeavesMatch(code, x, t, p, d, Decode(code, p).n, p + OpLen(code, p));
    } else {
      LeavesTake(code, x, t, p, d, p + OpLen(code, p));
    }
  }

  lemma CharEntry(buf: seq<byte>, code: seq<byte>, x: set<int>, t: seq<byte>, p: int, d: int, stack: seq<FailurePoint>)
    requires StateOk(buf, code, x, t, Entry, p, p, d, stack) && p != |code|
    requires Fits(code, p) && Expected(Body, code[p])
    ensures CharStepOk(buf, code, x, t, Entry, p, p, d, stack)
  {
    hide Closed, Trace, StackTrace, IsInterval, IsLoop, StackOk, CharsAt, CharCount, OpLen;
    TraceChars(code, x, t, p, d);
  }

  lemma CharBody(buf: seq<byte>, code: seq<byte>, x: set<int>, t: seq<byte>, entry: int, p: int, d: int, stack: seq<FailurePoint>)
    requires StateOk(buf, code, x, t, Body, entry, p, d, stack)
    ensures CharStepOk(buf, code, x, t, Body, entry, p, d, stack)
  {
    hide Closed, Takes, Pops, IsInterval, Trace;
    CharsAtOne(code, p, t, d);
    var top, below := PointTrace(code, x, t, stack[|stack| - 1]), StackTrace(code, x, t, stack[..|stack| - 1]);
    assert StackTrace(code, x, t, stack) == top + below;
    assert [Dead] + top + below == [Dead] + (top + below);
  }

  lemma CountDone(code: seq<byte>, x: set<int>, t: seq<byte>, p: int, d: int)
    requires Closed(code, x) && AtInterval(code, x, p) && 0 <= d <= |t|
    ensures Fits(code, p) && Decode(code, p).Count? && IntervalExit(code, p) in x + {|code|}
    ensures CountTrace(code, x, t, p, d, IntervalUpper(code, p)) == Trace(code, x, t, IntervalExit(code, p), d)
  {
    hide Closed, IntervalExit, IntervalUpper, IsIntervalMany, IsIntervalOne;
    IntervalDecodes(code, x, p);
  }

  lemma CharTaking(buf: seq<byte>, code: seq<byte>, x: set<int>, t: seq<byte>, entry: int, p: int, d: int, stack: seq<FailurePoint>, k: nat)
    requires StateOk(buf, code, x, t, Taking(k), entry, p, d, stack)
    ensures CharStepOk(buf, code, x, t, Taking(k), entry, p, d, stack)
  {
    hide Closed, Takes, StackOk, StackTrace, Decode, CharsAt, OneChar, IsIntervalOne, IsIntervalMany, Extract, IntervalExit,
      Trace, CountTrace, CharCount, IntervalUpper, IntervalLower, CountPos;
    CharsAtOne(code, p, t, d);
    IntervalDecodes(code, x, entry);
    IntervalAfterBody(code, entry);
    if d < |t| {
      CountDone(code, x, t, entry, d + 1);
    }
  }

  lemma IntervalAfterBody(code: seq<byte>, p: int)
    requires IsInterval(code, p)
    ensures var b := IntervalBody(code, p);
            && (IsIntervalOne(code, p) ==> IntervalExit(code, p) == b + OpLen(code, b) && IntervalUpper(code, p) == 1)
            && (!IsIntervalOne(code, p) ==> IsIntervalMany(code, p) && JumpPos(code, p) == b + OpLen(code, b))
            && (!IsIntervalOne(code, p) ==> IntervalExit(code, p) == JumpPos(code, p) + 5)
  {}

  lemma CharStep(buf: seq<byte>, code: seq<byte>, x: set<int>, t: seq<byte>, phase: Phase, entry: int, p: int, d: int,
                 stack: seq<FailurePoint>)
    requires StateOk(buf, code, x, t, phase, entry, p, d, stack) && p != |code|
    requires (phase.Entry? || phase.Body? || phase.Taking?) && Fits(code, p) && Expected(Body, code[p])
    ensures CharStepOk(buf, code, x, t, phase, entry, p, d, stack)
  {
    match phase
    case Entry => CharEntry(buf, code, x, t, p, d, stack);
    case Body => CharBody(buf, code, x, t, entry, p, d, stack);
    case Taking(k) => CharTaking(buf, code, x, t, entry, p, d, stack, k);
  }

  /** The operands of the command at an entry point, or of a loop's or interval's body, are as compiled. */
  lemma EntryBytes(buf: seq<byte>, code: seq<byte>, x: set<int>, p: int)
    requires Closed(code, x) && Variant(buf, code, x) && p in x
    ensures Fits(code, p) && |buf| == |code|
    ensures forall i :: p <= i < p + OpLen(code, p) ==> buf[i] == code[i]
  {
    EntryOp(code, x, p);
    hide Closed, Variant, Extract, OneChar, OpLen;
    if IsLoop(code, p) {
      LoopBytes(buf, code, x, p);
      LoopOpLen(code, p);
    } else if IsInterval(code, p) {
      hide IsInterval;
      IntervalOpLen(code, p);
      IntervalBytes(buf, code, x, p);
    } else {
      assert Span(code, p) == OpLen(code, p);
      forall i | p <= i < p + OpLen(code, p)
        ensures buf[i] == code[i]
      {
        PlainByte(buf, code, x, p, i);
      }
    }
  }

  lemma LoopOpLen(code: seq<byte>, q: int)
    requires IsLoop(code, q)
    ensures OpLen(code, q) == 3 && LoopEnd(code, q) >= q + 4
  {}

  lemma IntervalOpLen(code: seq<byte>, p: int)
    requires IsInterval(code, p)
    ensures 0 <= p < |code| && code[p] == SET_NUMBER_AT && OpLen(code, p) == 5 && p + 10 < IntervalExit(code, p)
    ensures forall i :: p <= i < p + 5 ==> !CounterByte(code, p, i)
  {
    hide Extract, OneChar;
  }

  lemma CharBytes(buf: seq<byte>, code: seq<byte>, x: set<int>, phase: Phase, entry: int, p: int)
    requires Closed(code, x) && Variant(buf, code, x) && Placed(buf, code, x, phase, entry, p) && p != |code|
    requires phase.Entry? || phase.Body? || phase.Taking?
    ensures Fits(code, p)
    ensures forall i :: p <= i < p + OpLen(code, p) ==> buf[i] == code[i]
  {
    hide Closed, Variant, Extract;
    match phase
    case Entry => EntryBytes(buf, code, x, p);
    case Body => LoopBytes(buf, code, x, entry);
    case Taking(_) =>
      IntervalBytes(buf, code, x, entry);
      IntervalAfterBody(code, entry);
  }

  // ---- commands at entry points that match no character ----

  lemma PushTop(code: seq<byte>, x: set<int>, t: seq<byte>, stack: seq<FailurePoint>, point: FailurePoint)
    requires Closed(code, x) && StackOk(x, |code|, |t|, stack) && PointOk(x, |code|, |t|, point)
    ensures StackOk(x, |code|, |t|, stack + [point])
    ensures StackTrace(code, x, t, stack + [point]) == PointTrace(code, x, t, point) + StackTrace(code, x, t, stack)
  {
    hide PointTrace, Closed;
    var s := stack + [point];
    assert s[..|s| - 1] == stack;
  }

  /** What one command makes of the state. */
  ghost predicate Keeps(buf: seq<byte>, code: seq<byte>, x: set<int>, t: seq<byte>, phase: Phase, entry: int, p: int, d: int,
                        stack: seq<FailurePoint>, rest: seq<Leaf>)
  {
    && StateOk(buf, code, x, t, phase, entry, p, d, stack)
    && Rest(buf, code, x, t, phase, entry, p, d, stack) == rest
  }

  lemma DecodeSimple(code: seq<byte>, p: int)
    requires Fits(code, p)
    ensures code[p] == START_MEMORY || code[p] == STOP_MEMORY ==> Decode(code, p) == Skip(p + 3)
    ensures code[p] == PUSH_DUMMY_FAILURE ==> Decode(code, p) == Dummy(p + 1)
    ensures code[p] == JUMP_PAST_ALT ==> Decode(code, p) == Goto(Target(code, p))
    ensures code[p] == ON_FAILURE_JUMP ==>
            Decode(code, p) == if IsLoop(code, p) then Loop(LoopEnd(code, p) + 3) else Choice(p + 3, Target(code, p))
  {
    hide Extract, IsLoop, IsInterval;
  }

  /** The leaves at a command with one or two successors. */
  lemma TraceSkip(code: seq<byte>, x: set<int>, t: seq<byte>, p: int, d: int)
    requires Closed(code, x) && p in x && Fits(code, p) && 0 <= d <= |t|
    requires code[p] == START_MEMORY || code[p] == STOP_MEMORY || code[p] == JUMP_PAST_ALT
    ensures Standing(code, x, t, p, d)
    ensures Continues(code, x, t, p, d, if code[p] == JUMP_PAST_ALT then Target(code, p) else p + 3, [])
    ensures code[p] == JUMP_PAST_ALT ==> Target(code, p) > p
  {
    hide Closed, Decode, Extract, IsLoop, IsInterval, Leaves;
    DecodeLeads(code, x, p);
    DecodeSimple(code, p);
    LeavesSkip(code, x, t, p, d, if code[p] == JUMP_PAST_ALT then Target(code, p) else p + 3);
  }

  lemma TraceDummy(code: seq<byte>, x: set<int>, t: seq<byte>, p: int, d: int)
    requires Closed(code, x) && p in x && Fits(code, p) && 0 <= d <= |t| && code[p] == PUSH_DUMMY_FAILURE
    ensures Standing(code, x, t, p, d) && Continues(code, x, t, p, d, p + 1, [Dead])
  {
    hide Closed, Decode, Extract, IsLoop, IsInterval, Leaves;
    DecodeSimple(code, p);
    LeavesDummy(code, x, t, p, d, p + 1);
  }

  lemma TraceChoice(code: seq<byte>, x: set<int>, t: seq<byte>, p: int, d: int)
    requires Closed(code, x) && p in x && Fits(code, p) && code[p] == ON_FAILURE_JUMP && !IsLoop(code, p) && 0 <= d <= |t|
    ensures Standing(code, x, t, p, d) && Chooses(code, x, t, p, d, p + 3, Target(code, p))
  {
    hide Closed, Decode, Extract, IsLoop, IsInterval, Leaves;
    DecodeSimple(code, p);
    LeavesChoice(code, x, t, p, d, p + 3, Target(code, p));
  }

  /** At the on_failure_jump of a loop the leaves are those of its body. */
  ghost predicate AtBody(code: seq<byte>, x: set<int>, t: seq<byte>, q: int, d: int)
    requires Standing(code, x, t, q, d) && q in x && IsLoop(code, q)
  {
    && Standing(code, x, t, Target(code, q), d)
    && Leaves(code, x, t, q, d) == BodyTrace(code, x, t, q, d, Leaves(code, x, t, Target(code, q), d))
  }

  lemma TraceLoop(code: seq<byte>, x: set<int>, t: seq<byte>, q: int, d: int)
    requires Closed(code, x) && q in x && IsLoop(code, q) && 0 <= d <= |t|
    ensures Standing(code, x, t, q, d) && AtBody(code, x, t, q, d)
  {
    hide Closed, Decode, Extract, IsLoop, IsInterval, CountTrace, BodyTrace, OneChar, LoopEnd, Fits;
    LoopFacts(code, x, t, q, d);
    LoopTarget(code, q);
  }

  lemma LoopTarget(code: seq<byte>, q: int)
    requires IsLoop(code, q)
    ensures 0 <= q && q + 3 <= |code| && Target(code, q) == LoopEnd(code, q) + 3
  {
    hide Extract, OneChar;
  }

  lemma SkipStep(buf: seq<byte>, code: seq<byte>, x: set<int>, t: seq<byte>, p: int, d: int, stack: seq<FailurePoint>)
    requires StateOk(buf, code, x, t, Entry, p, p, d, stack) && p != |code|
    requires Fits(code, p) && (code[p] == START_MEMORY || code[p] == STOP_MEMORY)
    ensures Keeps(buf, code, x, t, Entry, p + 3, p + 3, d, stack, Rest(buf, code, x, t, Entry, p, p, d, stack))
  {
    hide Closed, StackTrace, StackOk, Trace;
    TraceSkip(code, x, t, p, d);
    NoTail(Trace(code, x, t, p + 3, d));
  }

  lemma NoTail(a: seq<Leaf>)
    ensures a + [] == a
  {}

  lemma DummyStep(buf: seq<byte>, code: seq<byte>, x: set<int>, t: seq<byte>, p: int, d: int, stack: seq<FailurePoint>)
    requires StateOk(buf, code, x, t, Entry, p, p, d, stack) && p != |code|
    requires Fits(code, p) && code[p] == PUSH_DUMMY_FAILURE
    ensures Keeps(buf, code, x, t, Entry, p + 1, p + 1, d, stack + [DummyPoint], Rest(buf, code, x, t, Entry, p, p, d, stack))
  {
    hide Closed, StackTrace, StackOk, Trace;
    PushTop(code, x, t, stack, DummyPoint);
    TraceDummy(code, x, t, p, d);
    var a, b := Trace(code, x, t, p + 1, d), StackTrace(code, x, t, stack);
    assert a + [Dead] + b == a + ([Dead] + b);
  }

  lemma GotoStep(buf: seq<byte>, code: seq<byte>, x: set<int>, t: seq<byte>, p: int, d: int, stack: seq<FailurePoint>)
    requires StateOk(buf, code, x, t, Entry, p, p, d, stack) && p != |code|
    requires Fits(code, p) && code[p] == JUMP_PAST_ALT
    ensures Target(code, p) > p
    ensures Keeps(buf, code, x, t, Entry, Target(code, p), Target(code, p), d, stack, Rest(buf, code, x, t, Entry, p, p, d, stack))
  {
    hide Closed, StackTrace, StackOk, Extract, Trace;
    TraceSkip(code, x, t, p, d);
    NoTail(Trace(code, x, t, Target(code, p), d));
  }

  lemma ChoiceStep(buf: seq<byte>, code: seq<byte>, x: set<int>, t: seq<byte>, p: int, d: int, stack: seq<FailurePoint>)
    requires StateOk(buf, code, x, t, Entry, p, p, d, stack) && p != |code|
    requires Fits(code, p) && code[p] == ON_FAILURE_JUMP && !IsLoop(code, p)
    ensures Keeps(buf, code, x, t, Entry, p + 3, p + 3, d, stack + [Point(Target(code, p), d)],
                  Rest(buf, code, x, t, Entry, p, p, d, stack))
  {
    hide Closed, StackTrace, StackOk, Extract, Trace, IsLoop;
    TraceChoice(code, x, t, p, d);
    PushTop(code, x, t, stack, Point(Target(code, p), d));
    var a, b, c := Trace(code, x, t, p + 3, d), Trace(code, x, t, Target(code, p), d), StackTrace(code, x, t, stack);
    assert a + b + c == a + (b + c);
  }

  lemma LoopStep(buf: seq<byte>, code: seq<byte>, x: set<int>, t: seq<byte>, p: int, d: int, stack: seq<FailurePoint>)
    requires StateOk(buf, code, x, t, Entry, p, p, d, stack) && p != |code| && IsLoop(code, p)
    ensures Keeps(buf, code, x, t, Body, p, p + 3, d, stack + [Point(Target(code, p), d)],
                  Rest(buf, code, x, t, Entry, p, p, d, stack))
  {
    hide Closed, Decode, StackTrace, StackOk, Extract, Trace, BodyTrace, IsLoop, OneChar;
    LoopTarget(code, p);
    var point, s := Point(Target(code, p), d), stack + [Point(Target(code, p), d)];
    TraceLoop(code, x, t, p, d);
    PushTop(code, x, t, stack, point);
    assert s[..|s| - 1] == stack && s[|s| - 1] == point;
  }

  lemma PlusStep(buf: seq<byte>, code: seq<byte>, x: set<int>, t: seq<byte>, p: int, d: int, stack: seq<FailurePoint>)
    requires StateOk(buf, code, x, t, Entry, p, p, d, stack) && p != |code|
    requires Fits(code, p) && code[p] == DUMMY_FAILURE_JUMP
    ensures Target(code, p) == p + 6
    ensures Keeps(buf, code, x, t, Body, p + 3, p + 6, d, stack + [DummyPoint], Rest(buf, code, x, t, Entry, p, p, d, stack))
  {
    DecodeLeads(code, x, p);
    var s := stack + [DummyPoint];
    assert Decode(code, p).PlusLoop?;
    hide Closed, Decode, StackTrace, StackOk, Extract, BodyTrace, IsLoop;
    PushTop(code, x, t, stack, DummyPoint);
    assert s[..|s| - 1] == stack && s[|s| - 1] == DummyPoint;
  }

  // ---- the jump at the end of a loop ----

  lemma PopsStep(buf: seq<byte>, code: seq<byte>, x: set<int>, t: seq<byte>, q: int, p: int, d: int, stack: seq<FailurePoint>)
    requires StateOk(buf, code, x, t, LoopBack, q, p, d, stack)
    ensures Keeps(buf, code, x, t, Entry, q, q, d, if Pops(code, q) then stack[..|stack| - 1] else stack,
                  Rest(buf, code, x, t, LoopBack, q, p, d, stack))
  {
    hide Closed, Extract, Trace, BodyTrace, IsLoop, Pops, PointTrace;
    var a, top, below := Trace(code, x, t, q, d), PointTrace(code, x, t, stack[|stack| - 1]), StackTrace(code, x, t, stack[..|stack| - 1]);
    assert StackTrace(code, x, t, stack) == top + below;
    assert a + top + below == a + (top + below);
    assert a + [] + below == a + below;
  }

  // ---- taking a failure point from the stack ----

  lemma PopStep(buf: seq<byte>, code: seq<byte>, x: set<int>, t: seq<byte>, stack: seq<FailurePoint>)
    requires Closed(code, x) && |buf| == |code| && StackOk(x, |code|, |t|, stack) && |stack| > 0
    ensures var top, below := stack[|stack| - 1], stack[..|stack| - 1];
            && StackOk(x, |code|, |t|, below)
            && (top.DummyPoint? ==> StackTrace(code, x, t, stack) == [Dead] + StackTrace(code, x, t, below))
            && (top.Point? ==> Keeps(buf, code, x, t, Entry, top.p, top.p, top.d, below, StackTrace(code, x, t, stack)))
  {
    hide Closed, Trace;
  }

  // ---- the same facts as steps of a search that has met the leaves `done` and must meet `all` ----

  ghost predicate RunsTo(buf: seq<byte>, code: seq<byte>, x: set<int>, t: seq<byte>, phase: Phase, entry: int, p: int, d: int,
                         stack: seq<FailurePoint>, done: seq<Leaf>, all: seq<Leaf>)
  {
    && StateOk(buf, code, x, t, phase, entry, p, d, stack)
    && done + Rest(buf, code, x, t, phase, entry, p, d, stack) == all
  }

  ghost predicate FailsTo(code: seq<byte>, x: set<int>, t: seq<byte>, stack: seq<FailurePoint>, done: seq<Leaf>, all: seq<Leaf>) {
    && Closed(code, x) && StackOk(x, |code|, |t|, stack)
    && done + StackTrace(code, x, t, stack) == all
  }

  lemma KeepsRuns(buf: seq<byte>, code: seq<byte>, x: set<int>, t: seq<byte>, phase: Phase, entry: int, p: int, d: int,
                  stack: seq<FailurePoint>, rest: seq<Leaf>, done: seq<Leaf>, all: seq<Leaf>)
    requires Keeps(buf, code, x, t, phase, entry, p, d, stack, rest) && done + rest == all
    ensures RunsTo(buf, code, x, t, phase, entry, p, d, stack, done, all)
  {
    hide StateOk, Rest;
  }

  lemma RunsBounds(buf: seq<byte>, code: seq<byte>, x: set<int>, t: seq<byte>, phase: Phase, entry: int, p: int, d: int,
                   stack: seq<FailurePoint>, done: seq<Leaf>, all: seq<Leaf>)
    requires RunsTo(buf, code, x, t, phase, entry, p, d, stack, done, all)
    ensures Closed(code, x) && |buf| == |code| && 0 <= d <= |t| && entry in x + {|code|} && StackOk(x, |code|, |t|, stack)
    ensures phase.Entry? ==> entry == p
    ensures |done| < |all|
  {
    hide Closed, StackOk, IsLoop, IsInterval, IsIntervalOne, IsIntervalMany, Counters, Trace, BodyTrace, CountTrace, StackTrace;
  }

  lemma CharRuns(buf: seq<byte>, code: seq<byte>, x: set<int>, t: seq<byte>, phase: Phase, entry: int, p: int, d: int,
                 stack: seq<FailurePoint>, done: seq<Leaf>, all: seq<Leaf>)
    requires RunsTo(buf, code, x, t, phase, entry, p, d, stack, done, all) && Variant(buf, code, x)
    requires 0 <= p < |buf| && Expected(Body, buf[p])
    ensures Fits(code, p) && |buf| == |code| && 0 <= d <= |t| && (phase.Taking? ==> IsInterval(code, entry))
    ensures forall i :: p <= i < p + OpLen(code, p) ==> buf[i] == code[i]
    ensures code[p] != EXACTN ==> OneChar(code, p)
    ensures code[p] == EXACTN ==> code[p + 1] > 0
    ensures if CharsAt(code, p, t, d) then
              var (next, at) := AfterChar(code, phase, entry, p);
              RunsTo(buf, code, x, t, next, at, p + OpLen(code, p), d + CharCount(code, p), stack, done, all)
            else
              FailsTo(code, x, t, stack, done + [Dead], all)
  {
    hide Closed, Variant, Trace, StackTrace, CharsAt, OpLen, StackOk, Rest, Takes, CharCount, AfterChar, Extract, Placed;
    PhaseOp(buf, code, x, phase, entry, p);
    CharPhase(phase, buf[p]);
    CharBytes(buf, code, x, phase, entry, p);
    CharShape(buf, code, x, phase, entry, p);
    CharStep(buf, code, x, t, phase, entry, p, d, stack);
    var rest := StackTrace(code, x, t, stack);
    assert done + ([Dead] + rest) == done + [Dead] + rest;
    TakingInterval(buf, code, x, phase, entry, p);
  }

  lemma TakingInterval(buf: seq<byte>, code: seq<byte>, x: set<int>, phase: Phase, entry: int, p: int)
    requires |buf| == |code| && Placed(buf, code, x, phase, entry, p)
    ensures phase.Taking? ==> IsInterval(code, entry)
  {}

  lemma CharPhase(phase: Phase, op: byte)
    requires Expected(phase, op) && Expected(Body, op)
    ensures phase.Entry? || phase.Body? || phase.Taking?
  {}

  lemma CharShape(buf: seq<byte>, code: seq<byte>, x: set<int>, phase: Phase, entry: int, p: int)
    requires Closed(code, x) && |buf| == |code| && Placed(buf, code, x, phase, entry, p) && p != |code|
    requires (phase.Entry? || phase.Body? || phase.Taking?) && Fits(code, p) && Expected(Body, code[p])
    ensures code[p] != EXACTN ==> OneChar(code, p)
    ensures code[p] == EXACTN ==> code[p + 1] > 0
  {
    if phase.Entry? {
      assert WfAt(code, p, x + {|code|});
    }
    hide Extract, Closed;
  }

  lemma EntryPhase(phase: Phase, op: byte)
    requires Expected(phase, op)
    ensures op == START_MEMORY || op == STOP_MEMORY || op == PUSH_DUMMY_FAILURE ==> phase.Entry?
    ensures op == JUMP_PAST_ALT || op == ON_FAILURE_JUMP || op == DUMMY_FAILURE_JUMP ==> phase.Entry?
    ensures op == MAYBE_POP_JUMP || op == POP_FAILURE_JUMP || op == JUMP ==> phase.LoopBack?
    ensures op == SET_NUMBER_AT ==> phase.Entry? || phase.Second?
    ensures op == SUCCEED_N ==> phase.Counting?
    ensures op == NO_OP ==> phase.NoOps?
    ensures op == JUMP_N ==> phase.Again?
  {}

  /** The phase of a state follows from the opcode it meets. */
  lemma AtOpcode(buf: seq<byte>, code: seq<byte>, x: set<int>, t: seq<byte>, phase: Phase, entry: int, p: int, d: int,
                 stack: seq<FailurePoint>, done: seq<Leaf>, all: seq<Leaf>)
    requires RunsTo(buf, code, x, t, phase, entry, p, d, stack, done, all) && Variant(buf, code, x)
    requires 0 <= p < |buf|
    ensures |buf| == |code| && Closed(code, x) && Expected(phase, buf[p]) && Placed(buf, code, x, phase, entry, p)
    ensures !phase.LoopBack? && !phase.NoOps? ==> buf[p] == code[p]
    ensures phase.Entry? ==> entry == p && p in x && Fits(code, p) && forall i :: p <= i < p + OpLen(code, p) ==> buf[i] == code[i]
  {
    hide Closed, Variant, Rest, OpLen, Extract;
    PhaseOp(buf, code, x, phase, entry, p);
    if phase.Entry? {
      EntryBytes(buf, code, x, p);
    }
  }

  lemma SkipRuns(buf: seq<byte>, code: seq<byte>, x: set<int>, t: seq<byte>, phase: Phase, entry: int, p: int, d: int,
                 stack: seq<FailurePoint>, done: seq<Leaf>, all: seq<Leaf>)
    requires RunsTo(buf, code, x, t, phase, entry, p, d, stack, done, all) && Variant(buf, code, x)
    requires 0 <= p < |buf| && (buf[p] == START_MEMORY || buf[p] == STOP_MEMORY)
    ensures phase.Entry? && entry == p && p + 3 <= |buf|
    ensures RunsTo(buf, code, x, t, Entry, p + 3, p + 3, d, stack, done, all)
    ensures p + 3 < |buf| ==> Expected(Entry, buf[p + 3])
    ensures p + 3 < |buf| && buf[p + 3] == DUMMY_FAILURE_JUMP ==> p + 6 <= |buf| && Extract(buf, p + 4) == 3
  {
    hide Closed, Variant, Rest, Extract, Trace, StackTrace, StackOk;
    AtOpcode(buf, code, x, t, phase, entry, p, d, stack, done, all);
    EntryPhase(phase, buf[p]);
    SkipStep(buf, code, x, t, p, d, stack);
    KeepsRuns(buf, code, x, t, Entry, p + 3, p + 3, d, stack, Rest(buf, code, x, t, phase, entry, p, d, stack), done, all);
    if p + 3 < |buf| {
      AtOpcode(buf, code, x, t, Entry, p + 3, p + 3, d, stack, done, all);
      PlusOffset(code, x, p + 3);
      if code[p + 3] == DUMMY_FAILURE_JUMP {
        SameNumber(buf, code, p + 4);
      }
    }
  }

  lemma PlusOffset(code: seq<byte>, x: set<int>, p: int)
    requires Closed(code, x) && p in x && 0 <= p < |code|
    ensures code[p] == DUMMY_FAILURE_JUMP ==> Fits(code, p) && OpLen(code, p) == 3 && Extract(code, p + 1) == 3
  {
    assert WfAt(code, p, x + {|code|});
    hide Closed, Extract, IsLoop, IsInterval;
  }

  lemma DummyRuns(buf: seq<byte>, code: seq<byte>, x: set<int>, t: seq<byte>, phase: Phase, entry: int, p: int, d: int,
                  stack: seq<FailurePoint>, done: seq<Leaf>, all: seq<Leaf>)
    requires RunsTo(buf, code, x, t, phase, entry, p, d, stack, done, all) && Variant(buf, code, x)
    requires 0 <= p < |buf| && buf[p] == PUSH_DUMMY_FAILURE
    ensures entry == p
    ensures RunsTo(buf, code, x, t, Entry, p + 1, p + 1, d, stack + [DummyPoint], done, all)
  {
    hide Closed, Variant, Rest, Extract, Trace, StackTrace, StackOk;
    AtOpcode(buf, code, x, t, phase, entry, p, d, stack, done, all);
    EntryPhase(phase, buf[p]);
    DummyStep(buf, code, x, t, p, d, stack);
    KeepsRuns(buf, code, x, t, Entry, p + 1, p + 1, d, stack + [DummyPoint], Rest(buf, code, x, t, phase, entry, p, d, stack), done, all);
  }

  lemma GotoRuns(buf: seq<byte>, code: seq<byte>, x: set<int>, t: seq<byte>, phase: Phase, entry: int, p: int, d: int,
                 stack: seq<FailurePoint>, done: seq<Leaf>, all: seq<Leaf>)
    requires RunsTo(buf, code, x, t, phase, entry, p, d, stack, done, all) && Variant(buf, code, x)
    requires 0 <= p < |buf| && buf[p] == JUMP_PAST_ALT
    ensures entry == p && p + 3 <= |buf|
    ensures var to := p + 3 + Extract(buf, p + 1);
            to > p && RunsTo(buf, code, x, t, Entry, to, to, d, stack, done, all)
  {
    hide Closed, Variant, Rest, Extract, Trace, StackTrace, StackOk;
    AtOpcode(buf, code, x, t, phase, entry, p, d, stack, done, all);
    EntryPhase(phase, buf[p]);
    SameNumber(buf, code, p + 1);
    GotoStep(buf, code, x, t, p, d, stack);
    var to := Target(code, p);
    KeepsRuns(buf, code, x, t, Entry, to, to, d, stack, Rest(buf, code, x, t, phase, entry, p, d, stack), done, all);
  }

  /** A choice or the start of a loop. */
  lemma OnFailureRuns(buf: seq<byte>, code: seq<byte>, x: set<int>, t: seq<byte>, phase: Phase, entry: int, p: int, d: int,
                      stack: seq<FailurePoint>, done: seq<Leaf>, all: seq<Leaf>)
    requires RunsTo(buf, code, x, t, phase, entry, p, d, stack, done, all) && Variant(buf, code, x)
    requires 0 <= p < |buf| && buf[p] == ON_FAILURE_JUMP
    ensures entry == p && p + 3 <= |buf| && phase.Entry?
    ensures var point := Point(p + 3 + Extract(buf, p + 1), d);
            if IsLoop(code, p) then RunsTo(buf, code, x, t, Body, p, p + 3, d, stack + [point], done, all)
            else RunsTo(buf, code, x, t, Entry, p + 3, p + 3, d, stack + [point], done, all)
  {
    hide Closed, Variant, Rest, Extract, Trace, StackTrace, StackOk, IsLoop, IsInterval;
    AtOpcode(buf, code, x, t, phase, entry, p, d, stack, done, all);
    EntryPhase(phase, buf[p]);
    SameNumber(buf, code, p + 1);
    var point := Point(Target(code, p), d);
    if IsLoop(code, p) {
      LoopStep(buf, code, x, t, p, d, stack);
      KeepsRuns(buf, code, x, t, Body, p, p + 3, d, stack + [point], Rest(buf, code, x, t, phase, entry, p, d, stack), done, all);
    } else {
      ChoiceStep(buf, code, x, t, p, d, stack);
      KeepsRuns(buf, code, x, t, Entry, p + 3, p + 3, d, stack + [point], Rest(buf, code, x, t, phase, entry, p, d, stack), done, all);
    }
  }

  lemma PlusRuns(buf: seq<byte>, code: seq<byte>, x: set<int>, t: seq<byte>, phase: Phase, entry: int, p: int, d: int,
                 stack: seq<FailurePoint>, done: seq<Leaf>, all: seq<Leaf>)
    requires RunsTo(buf, code, x, t, phase, entry, p, d, stack, done, all) && Variant(buf, code, x)
    requires 0 <= p < |buf| && buf[p] == DUMMY_FAILURE_JUMP
    ensures entry == p && p + 3 <= |buf| && Extract(buf, p + 1) == 3
    ensures RunsTo(buf, code, x, t, Body, p + 3, p + 6, d, stack + [DummyPoint], done, all)
  {
    hide Closed, Variant, Rest, Extract, Trace, StackTrace, StackOk, IsLoop, IsInterval;
    AtOpcode(buf, code, x, t, phase, entry, p, d, stack, done, all);
    EntryPhase(phase, buf[p]);
    SameNumber(buf, code, p + 1);
    PlusStep(buf, code, x, t, p, d, stack);
    KeepsRuns(buf, code, x, t, Body, p + 3, p + 6, d, stack + [DummyPoint], Rest(buf, code, x, t, phase, entry, p, d, stack), done, all);
  }

  lemma BackRuns(buf: seq<byte>, code: seq<byte>, x: set<int>, t: seq<byte>, phase: Phase, entry: int, p: int, d: int,
                 stack: seq<FailurePoint>, done: seq<Leaf>, all: seq<Leaf>)
    requires RunsTo(buf, code, x, t, phase, entry, p, d, stack, done, all) && Variant(buf, code, x)
    requires 0 <= p < |buf| && (buf[p] == MAYBE_POP_JUMP || buf[p] == POP_FAILURE_JUMP || buf[p] == JUMP)
    ensures phase.LoopBack? && entry in x && IsLoop(code, entry) && p == LoopEnd(code, entry) && |stack| > 0 && |buf| == |code|
    ensures buf[p] == MAYBE_POP_JUMP || buf[p] == Decided(code, entry)
    ensures p + 3 <= |buf| && p + 3 + Extract(buf, p + 1) == entry
    ensures RunsTo(buf, code, x, t, Entry, entry, entry, d, if Pops(code, entry) then stack[..|stack| - 1] else stack, done, all)
  {
    hide Closed, Variant, Rest, Extract, Trace, StackTrace, StackOk, IsLoop, IsInterval, Pops;
    AtOpcode(buf, code, x, t, phase, entry, p, d, stack, done, all);
    EntryPhase(phase, buf[p]);
    LoopBytes(buf, code, x, entry);
    BackTarget(code, entry);
    SameNumber(buf, code, p + 1);
    PopsStep(buf, code, x, t, entry, p, d, stack);
    KeepsRuns(buf, code, x, t, Entry, entry, entry, d, if Pops(code, entry) then stack[..|stack| - 1] else stack,
              Rest(buf, code, x, t, phase, entry, p, d, stack), done, all);
  }

  lemma BackTarget(code: seq<byte>, q: int)
    requires IsLoop(code, q)
    ensures var m := LoopEnd(code, q); q + 4 <= m && m + 3 <= |code| && m + 3 + Extract(code, m + 1) == q
  {}

  /** Changing the jump of a loop to what was decided. */
  lemma DecideRuns(buf: seq<byte>, code: seq<byte>, x: set<int>, q: int)
    requires WfProgram(code, x) && Variant(buf, code, x) && q in x && IsLoop(code, q)
    ensures |buf| == |code| && Variant(buf[LoopEnd(code, q) := Decided(code, q)], code, x)
  {
    assert Span(code, q) == LoopEnd(code, q) + 3 - q;
    assert !AtInterval(code, x, q);
    hide WfProgram, BytesOk, CountsOk, Extract, OneChar, Span, Pops, IsLoop, AtInterval;
    VariantLength(buf, code, x);
    BytesUpdate(buf, code, x, q, LoopEnd(code, q), Decided(code, q));
    CountsElsewhere(buf, buf[LoopEnd(code, q) := Decided(code, q)], code, x, q);
  }

  lemma VariantLength(buf: seq<byte>, code: seq<byte>, x: set<int>)
    requires Variant(buf, code, x)
    ensures |buf| == |code|
  {
    hide SpanOk;
  }

  lemma PopRuns(buf: seq<byte>, code: seq<byte>, x: set<int>, t: seq<byte>, stack: seq<FailurePoint>, done: seq<Leaf>, all: seq<Leaf>)
    requires FailsTo(code, x, t, stack, done, all) && |stack| > 0 && Variant(buf, code, x)
    ensures var top, below := stack[|stack| - 1], stack[..|stack| - 1];
            && (top.DummyPoint? ==> FailsTo(code, x, t, below, done + [Dead], all))
            && (top.Point? ==> top.p in x + {|code|} && RunsTo(buf, code, x, t, Entry, top.p, top.p, top.d, below, done, all))
            && (top.Point? && top.p != |code| ==> 0 <= top.p < |buf| && Expected(Entry, buf[top.p]))
  {
    hide Closed, Variant, StackTrace, Rest, Extract;
    VariantLength(buf, code, x);
    PopStep(buf, code, x, t, stack);
    var top, below := stack[|stack| - 1], stack[..|stack| - 1];
    if top.DummyPoint? {
      assert done + ([Dead] + StackTrace(code, x, t, below)) == done + [Dead] + StackTrace(code, x, t, below);
    } else {
      KeepsRuns(buf, code, x, t, Entry, top.p, top.p, top.d, below, StackTrace(code, x, t, stack), done, all);
      if top.p != |code| {
        PhaseOp(buf, code, x, Entry, top.p, top.p);
      }
    }
  }

  // ---- looking ahead behind a loop, in the rewritten program ----

  lemma SkipAhead(buf: seq<byte>, code: seq<byte>, x: set<int>, p: int)
    requires Closed(code, x) && Variant(buf, code, x) && p in x + {|code|} && 0 <= p < |code|
    ensures |buf| == |code| && buf[p] == code[p]
    ensures code[p] == START_MEMORY || code[p] == STOP_MEMORY ==> p + 3 in x + {|code|} && p + 3 <= |code|
    ensures code[p] == EXACTN ==> p + 2 < |code| && buf[p + 2] == code[p + 2]
  {
    assert WfAt(code, p, x + {|code|});
    hide Closed, Variant, Extract;
    EntryBytes(buf, code, x, p);
  }
}
