/** The commands of an interval: its counters live in the program, and each step keeps the leaves to be explored. */
module IntervalSteps {
  import opened Bytes
  import opened Opcodes
  import opened Machine
  import opened WellFormed
  import opened Traces
  import opened MatchSpec
  import opened MatchSteps

  /** STORE_NUMBER into the program. */
  function StoreAt(buf: seq<byte>, i: int, n: int): (r: seq<byte>)
    requires 0 <= i && i + 1 < |buf|
    ensures |r| == |buf|
  {
    buf[i := Store(n)[0]][i + 1 := Store(n)[1]]
  }

  lemma StoreAtReads(buf: seq<byte>, i: int, n: int)
    requires 0 <= i && i + 1 < |buf| && 0 <= n < 32768
    ensures Extract(StoreAt(buf, i, n), i) == n
    ensures forall j :: 0 <= j && j + 1 < |buf| && (j + 1 < i || j > i + 1) ==> Extract(StoreAt(buf, i, n), j) == Extract(buf, j)
  {
    ExtractStore(n);
    assert Extract(StoreAt(buf, i, n), i) == Extract(Store(n), 0);
  }

  /** Where the counters are. */
  predicate CounterAt(code: seq<byte>, p: int, i: int)
    requires IsInterval(code, p)
  {
    i == CountPos(code, p) + 3 || (IsIntervalMany(code, p) && i == JumpPos(code, p) + 3)
  }

  lemma CounterBounds(code: seq<byte>, p: int)
    requires IsInterval(code, p)
    ensures 0 <= p && p + 5 <= CountPos(code, p) && CountPos(code, p) + 5 < |code|
    ensures !(IsIntervalOne(code, p) && IsIntervalMany(code, p))
    ensures IsIntervalMany(code, p) ==>
            CountPos(code, p) + 5 < JumpPos(code, p) && JumpPos(code, p) + 5 == IntervalExit(code, p) <= |code|
    ensures CountPos(code, p) + 5 < IntervalExit(code, p)
  {
    hide Takes;
  }

  lemma CounterInSpan(code: seq<byte>, p: int, i: int)
    requires IsInterval(code, p) && CounterAt(code, p, i)
    ensures CounterByte(code, p, i) && CounterByte(code, p, i + 1)
    ensures p <= i && i + 1 < p + Span(code, p)
  {
    hide Extract, OneChar, IsIntervalOne, IsIntervalMany;
    CounterBounds(code, p);
    IntervalOpLen(code, p);
    assert !IsLoop(code, p);
  }

  lemma StoreBytes(buf: seq<byte>, code: seq<byte>, x: set<int>, p: int, i: int, n: int)
    requires WfProgram(code, x) && BytesOk(buf, code, x) && AtInterval(code, x, p) && CounterAt(code, p, i)
    ensures |buf| == |code| && 0 <= i && i + 1 < |buf| && BytesOk(StoreAt(buf, i, n), code, x)
    ensures p <= i && i + 1 < p + Span(code, p)
  {
    hide WfAt, Span, Extract, OneChar, CounterByte, IsInterval, IsLoop, WfProgram, CountPos, JumpPos, IntervalExit, Store, CounterAt, SpanOk;
    CounterInSpan(code, p, i);
    assert SpanOk(buf, code, p);
    SpanFits(buf, code, p);
    hide BytesOk;
    BytesUpdate(buf, code, x, p, i, Store(n)[0]);
    BytesUpdate(buf[i := Store(n)[0]], code, x, p, i + 1, Store(n)[1]);
  }

  lemma StoreCounter(buf: seq<byte>, code: seq<byte>, x: set<int>, p: int, i: int, n: int)
    requires WfProgram(code, x) && Variant(buf, code, x) && AtInterval(code, x, p) && CounterAt(code, p, i)
    requires 0 <= n < 32768 && (i == CountPos(code, p) + 3 ==> n <= IntervalLower(code, p))
    ensures |buf| == |code| && 0 <= i && i + 1 < |buf| && Variant(StoreAt(buf, i, n), code, x)
  {
    hide Span, Extract, IsIntervalOne, IsIntervalMany, WfProgram, CountPos, JumpPos, IntervalExit, Store, IntervalLower, BytesOk, CountsOk;
    CounterBounds(code, p);
    StoreBytes(buf, code, x, p, i, n);
    StoreAtReads(buf, i, n);
    CountOf(buf, code, x, p);
    CountsElsewhere(buf, StoreAt(buf, i, n), code, x, p);
  }

  lemma CountOf(buf: seq<byte>, code: seq<byte>, x: set<int>, p: int)
    requires |buf| == |code| && CountsOk(buf, code, x) && AtInterval(code, x, p)
    ensures 0 <= SuccCount(buf, code, p) <= IntervalLower(code, p)
  {}

  lemma SpanFits(buf: seq<byte>, code: seq<byte>, p: int)
    requires |buf| == |code| && SpanOk(buf, code, p)
    ensures 0 <= p && p + Span(code, p) <= |code|
  {
    hide Span, ByteOk;
  }

  // ---- set_number_at ----

  lemma TraceCount(code: seq<byte>, x: set<int>, t: seq<byte>, p: int, d: int)
    requires Closed(code, x) && AtInterval(code, x, p) && 0 <= d <= |t|
    ensures Fits(code, p) && Decode(code, p).Count?
    ensures Trace(code, x, t, p, d) == CountTrace(code, x, t, p, d, 0)
  {
    hide Closed, Decode, Extract, IsIntervalOne, IsIntervalMany, BodyTrace, CountTrace;
    IntervalDecodes(code, x, p);
    DecodeLeads(code, x, p);
  }

  lemma SetPlaced(buf: seq<byte>, code: seq<byte>, x: set<int>, p: int)
    requires WfProgram(code, x) && AtInterval(code, x, p) && Variant(buf, code, x)
    ensures var i, n := p + 3 + Extract(code, p + 1), Extract(code, p + 3);
            && |buf| == |code| && 0 <= i && i + 1 < |buf| && Variant(StoreAt(buf, i, n), code, x)
            && Placed(StoreAt(buf, i, n), code, x, if IsIntervalOne(code, p) then Counting(0) else Second, p, p + 5)
  {
    hide WfProgram, Variant, Extract, IsIntervalOne, IsIntervalMany, StoreAt, Store, OneChar;
    hide IntervalUpper, IntervalLower, CountPos, JumpPos;
    CounterBounds(code, p);
    var i, n := p + 3 + Extract(code, p + 1), Extract(code, p + 3);
    SetLayout(code, p);
    StoreCounter(buf, code, x, p, i, n);
    StoreAtReads(buf, i, n);
  }

  lemma SetStep(buf: seq<byte>, code: seq<byte>, x: set<int>, t: seq<byte>, p: int, d: int, stack: seq<FailurePoint>)
    requires WfProgram(code, x) && StateOk(buf, code, x, t, Entry, p, p, d, stack) && AtInterval(code, x, p)
    requires Variant(buf, code, x)
    ensures var i, n := p + 3 + Extract(code, p + 1), Extract(code, p + 3);
            && 0 <= i && i + 1 < |buf| && Variant(StoreAt(buf, i, n), code, x)
            && Keeps(StoreAt(buf, i, n), code, x, t, if IsIntervalOne(code, p) then Counting(0) else Second, p, p + 5, d, stack,
                     Rest(buf, code, x, t, Entry, p, p, d, stack))
  {
    hide WfProgram, Closed, Variant, Extract, IsIntervalOne, IsIntervalMany, Trace, CountTrace, StackTrace, StackOk, StoreAt, Store;
    hide Placed, AtInterval;
    SetPlaced(buf, code, x, p);
    TraceCount(code, x, t, p, d);
  }

  lemma SetLayout(code: seq<byte>, p: int)
    requires IsInterval(code, p)
    ensures var i, n := p + 3 + Extract(code, p + 1), Extract(code, p + 3);
            && 0 <= n < 32768
            && (IsIntervalOne(code, p) ==> i == CountPos(code, p) + 3 && n == IntervalLower(code, p) && CountPos(code, p) == p + 5)
            && (!IsIntervalOne(code, p) ==> i == JumpPos(code, p) + 3 && n == IntervalUpper(code, p) - 1 && CountPos(code, p) == p + 10)
            && (!IsIntervalOne(code, p) ==> Extract(code, p + 6) == 5 && Extract(code, p + 8) == IntervalLower(code, p))
            && IntervalLower(code, p) < 32768
            && Target(code, CountPos(code, p)) == IntervalExit(code, p)
            && (!IsIntervalOne(code, p) ==> Target(code, JumpPos(code, p)) == CountPos(code, p))
  {
    ExtractRange(code, p + 3);
    ExtractRange(code, p + 8);
  }

  lemma ExtractRange(s: seq<byte>, i: nat)
    requires i + 1 < |s|
    ensures -32768 <= Extract(s, i) < 32768
  {}

  lemma SecondPlaced(buf: seq<byte>, code: seq<byte>, x: set<int>, entry: int, p: int)
    requires WfProgram(code, x) && |buf| == |code| && Placed(buf, code, x, Second, entry, p) && Variant(buf, code, x)
    ensures var n := IntervalLower(code, entry);
            && p + 9 < |buf| && Variant(StoreAt(buf, p + 8, n), code, x)
            && Placed(StoreAt(buf, p + 8, n), code, x, Counting(0), entry, p + 5)
  {
    hide WfProgram, Variant, Extract, IsIntervalOne, IsIntervalMany, StoreAt, Store, OneChar;
    hide IntervalUpper, IntervalLower, CountPos, JumpPos;
    CounterBounds(code, entry);
    SetLayout(code, entry);
    StoreCounter(buf, code, x, entry, p + 8, IntervalLower(code, entry));
    StoreAtReads(buf, p + 8, IntervalLower(code, entry));
  }

  lemma SecondStep(buf: seq<byte>, code: seq<byte>, x: set<int>, t: seq<byte>, entry: int, p: int, d: int, stack: seq<FailurePoint>)
    requires WfProgram(code, x) && StateOk(buf, code, x, t, Second, entry, p, d, stack) && Variant(buf, code, x)
    ensures var n := IntervalLower(code, entry);
            && p + 9 < |buf| && Variant(StoreAt(buf, p + 8, n), code, x)
            && Keeps(StoreAt(buf, p + 8, n), code, x, t, Counting(0), entry, p + 5, d, stack,
                     Rest(buf, code, x, t, Second, entry, p, d, stack))
  {
    hide WfProgram, Closed, Variant, Extract, IsIntervalOne, IsIntervalMany, Trace, CountTrace, StackTrace, StackOk, StoreAt, Store;
    hide Placed, AtInterval;
    SecondPlaced(buf, code, x, entry, p);
  }

  // ---- succeed_n ----

  lemma TraceMust(code: seq<byte>, x: set<int>, t: seq<byte>, p: int, d: int, k: nat)
    requires Closed(code, x) && AtInterval(code, x, p) && 0 <= d <= |t| && k < IntervalUpper(code, p)
    ensures Fits(code, p) && Decode(code, p).Count? && IntervalExit(code, p) in x + {|code|}
    ensures CountTrace(code, x, t, p, d, k) ==
            if k < IntervalLower(code, p) then MoreTrace(code, x, t, p, d, k)
            else MoreTrace(code, x, t, p, d, k) + Trace(code, x, t, IntervalExit(code, p), d)
  {
    hide Closed, Decode, IsIntervalOne, IsIntervalMany, IntervalUpper, IntervalLower, IntervalExit, IntervalBody, Takes, Trace;
    IntervalDecodes(code, x, p);
  }

  lemma MustPlaced(buf: seq<byte>, code: seq<byte>, x: set<int>, entry: int, p: int, k: nat)
    requires WfProgram(code, x) && |buf| == |code| && Placed(buf, code, x, Counting(k), entry, p) && Variant(buf, code, x)
    requires SuccCount(buf, code, entry) > 0
    ensures var n := SuccCount(buf, code, entry) - 1;
            && 0 <= p && p + 4 < |buf| && Variant(StoreAt(buf, p + 3, n), code, x) && k < IntervalLower(code, entry)
            && Placed(StoreAt(buf, p + 3, n), code, x, Taking(k), entry, p + 5)
  {
    hide WfProgram, Variant, Extract, IsIntervalOne, IsIntervalMany, StoreAt, Store, OneChar;
    hide IntervalUpper, IntervalLower, CountPos, JumpPos;
    var n := SuccCount(buf, code, entry) - 1;
    CounterBounds(code, entry);
    SetLayout(code, entry);
    StoreCounter(buf, code, x, entry, p + 3, n);
    StoreAtReads(buf, p + 3, n);
  }

  /** The lower bound is not reached: one more character must be taken. */
  lemma MustStep(buf: seq<byte>, code: seq<byte>, x: set<int>, t: seq<byte>, entry: int, p: int, d: int, stack: seq<FailurePoint>, k: nat)
    requires WfProgram(code, x) && StateOk(buf, code, x, t, Counting(k), entry, p, d, stack) && Variant(buf, code, x)
    requires SuccCount(buf, code, entry) > 0
    ensures var n := SuccCount(buf, code, entry) - 1;
            && p + 4 < |buf| && Variant(StoreAt(buf, p + 3, n), code, x)
            && Keeps(StoreAt(buf, p + 3, n), code, x, t, Taking(k), entry, p + 5, d, stack,
                     Rest(buf, code, x, t, Counting(k), entry, p, d, stack))
  {
    hide WfProgram, Closed, Variant, Extract, IsIntervalOne, IsIntervalMany, Trace, CountTrace, StackTrace, StackOk, StoreAt, Store,
      MoreTrace, IntervalLower, IntervalUpper;
    MustPlaced(buf, code, x, entry, p, k);
    TraceMust(code, x, t, entry, d, k);
    hide Placed, AtInterval;
  }

  lemma MayPlaced(buf: seq<byte>, code: seq<byte>, x: set<int>, entry: int, p: int, k: nat)
    requires |buf| == |code| && Placed(buf, code, x, Counting(k), entry, p) && SuccCount(buf, code, entry) == 0
    ensures 0 <= p && p + 4 < |buf| && buf[p + 3] == 0 && buf[p + 4] == 0 && Target(code, p) == IntervalExit(code, entry)
    ensures k >= IntervalLower(code, entry) && Placed(buf, code, x, NoOps(k, false), entry, p + 3)
  {
    hide Extract, IsIntervalOne, IsIntervalMany, OneChar;
    hide IntervalUpper, IntervalLower, CountPos, JumpPos;
    CounterBounds(code, entry);
    SetLayout(code, entry);
    ZeroCount(buf, p + 3);
  }

  /** The lower bound is reached: leaving the interval becomes a failure point. */
  lemma MayStep(buf: seq<byte>, code: seq<byte>, x: set<int>, t: seq<byte>, entry: int, p: int, d: int, stack: seq<FailurePoint>, k: nat)
    requires WfProgram(code, x) && StateOk(buf, code, x, t, Counting(k), entry, p, d, stack) && Variant(buf, code, x)
    requires SuccCount(buf, code, entry) == 0
    ensures p + 4 < |buf| && buf[p + 3] == 0 && buf[p + 4] == 0 && Target(code, p) == IntervalExit(code, entry)
    ensures Keeps(buf, code, x, t, NoOps(k, false), entry, p + 3, d, stack + [Point(IntervalExit(code, entry), d)],
                  Rest(buf, code, x, t, Counting(k), entry, p, d, stack))
  {
    hide WfProgram, Closed, Variant, Extract, IsIntervalOne, IsIntervalMany, Trace, CountTrace, StackTrace, StackOk, MoreTrace,
      IntervalLower, IntervalUpper, IntervalExit;
    MayPlaced(buf, code, x, entry, p, k);
    TraceMust(code, x, t, entry, d, k);
    var exit := IntervalExit(code, entry);
    PushTop(code, x, t, stack, Point(exit, d));
    hide Placed, AtInterval;
    var a, b, c := MoreTrace(code, x, t, entry, d, k), Trace(code, x, t, exit, d), StackTrace(code, x, t, stack);
    assert a + b + c == a + (b + c);
  }

  lemma NoOpStep(buf: seq<byte>, code: seq<byte>, x: set<int>, t: seq<byte>, entry: int, p: int, d: int, stack: seq<FailurePoint>, k: nat, last: bool)
    requires StateOk(buf, code, x, t, NoOps(k, last), entry, p, d, stack)
    ensures Keeps(buf, code, x, t, if last then Taking(k) else NoOps(k, true), entry, p + 1, d, stack,
                  Rest(buf, code, x, t, NoOps(k, last), entry, p, d, stack))
  {
    hide Closed, Extract, IsIntervalOne, IsIntervalMany, StackTrace, StackOk, MoreTrace, IntervalUpper, IntervalLower, OneChar;
  }

  // ---- jump_n ----

  lemma AgainPlaced(buf: seq<byte>, code: seq<byte>, x: set<int>, entry: int, p: int, k: nat)
    requires WfProgram(code, x) && |buf| == |code| && Placed(buf, code, x, Again(k), entry, p) && Variant(buf, code, x)
    requires JumpCount(buf, code, entry) != 0
    ensures var n := JumpCount(buf, code, entry) - 1;
            && 0 <= p && p + 4 < |buf| && Variant(StoreAt(buf, p + 3, n), code, x) && Target(code, p) == CountPos(code, entry)
            && Placed(StoreAt(buf, p + 3, n), code, x, Counting(k), entry, CountPos(code, entry))
  {
    hide WfProgram, Variant, Extract, IsIntervalOne, IsIntervalMany, StoreAt, Store, OneChar;
    hide IntervalUpper, IntervalLower, CountPos, JumpPos;
    var n := JumpCount(buf, code, entry) - 1;
    CounterBounds(code, entry);
    SetLayout(code, entry);
    ExtractRange(buf, p + 3);
    StoreCounter(buf, code, x, entry, p + 3, n);
    StoreAtReads(buf, p + 3, n);
  }

  lemma AgainStep(buf: seq<byte>, code: seq<byte>, x: set<int>, t: seq<byte>, entry: int, p: int, d: int, stack: seq<FailurePoint>, k: nat)
    requires WfProgram(code, x) && StateOk(buf, code, x, t, Again(k), entry, p, d, stack) && Variant(buf, code, x)
    requires JumpCount(buf, code, entry) != 0
    ensures var n := JumpCount(buf, code, entry) - 1;
            && p + 4 < |buf| && Variant(StoreAt(buf, p + 3, n), code, x) && Target(code, p) == CountPos(code, entry)
            && Keeps(StoreAt(buf, p + 3, n), code, x, t, Counting(k), entry, CountPos(code, entry), d, stack,
                     Rest(buf, code, x, t, Again(k), entry, p, d, stack))
  {
    hide WfProgram, Closed, Variant, Extract, IsIntervalOne, IsIntervalMany, Trace, CountTrace, StackTrace, StackOk, StoreAt, Store, CountPos;
    hide Placed, AtInterval;
    AgainPlaced(buf, code, x, entry, p, k);
  }

  lemma LeaveStep(buf: seq<byte>, code: seq<byte>, x: set<int>, t: seq<byte>, entry: int, p: int, d: int, stack: seq<FailurePoint>, k: nat)
    requires StateOk(buf, code, x, t, Again(k), entry, p, d, stack) && JumpCount(buf, code, entry) == 0
    ensures p + 5 > entry
    ensures Keeps(buf, code, x, t, Entry, p + 5, p + 5, d, stack, Rest(buf, code, x, t, Again(k), entry, p, d, stack))
  {
    hide Closed, Extract, IsIntervalOne, IsIntervalMany, Trace, CountTrace, StackTrace, StackOk, IntervalUpper, IntervalLower;
    hide JumpPos, CountPos, OneChar;
    CounterBounds(code, entry);
    CountDone(code, x, t, entry, d);
  }

  // ---- the same as steps of a search ----

  lemma IntervalReads(buf: seq<byte>, code: seq<byte>, x: set<int>, p: int)
    requires Variant(buf, code, x) && AtInterval(code, x, p)
    ensures |buf| == |code| && CountPos(code, p) + 5 <= |buf| && 0 <= p && p + 5 <= CountPos(code, p)
    ensures Extract(buf, p + 1) == Extract(code, p + 1) && Extract(buf, p + 3) == Extract(code, p + 3)
    ensures Extract(buf, CountPos(code, p) + 1) == Extract(code, CountPos(code, p) + 1)
    ensures !IsIntervalOne(code, p) ==>
            && CountPos(code, p) == p + 10 && Extract(buf, p + 6) == 5 && Extract(buf, p + 8) == IntervalLower(code, p)
            && JumpPos(code, p) + 5 <= |buf| && Extract(buf, JumpPos(code, p) + 1) == Extract(code, JumpPos(code, p) + 1)
  {
    hide Variant, Extract, OneChar, IsIntervalOne, IsIntervalMany;
    CounterBounds(code, p);
    SetLayout(code, p);
    IntervalBytes(buf, code, x, p);
    var c := CountPos(code, p);
    SameNumber(buf, code, p + 1);
    SameNumber(buf, code, p + 3);
    SameNumber(buf, code, c + 1);
    if !IsIntervalOne(code, p) {
      SameNumber(buf, code, p + 6);
      SameNumber(buf, code, p + 8);
      SameNumber(buf, code, JumpPos(code, p) + 1);
    }
  }

  lemma EntryInterval(code: seq<byte>, x: set<int>, p: int)
    requires Closed(code, x) && p in x && 0 <= p < |code| && code[p] == SET_NUMBER_AT
    ensures AtInterval(code, x, p)
  {
    assert WfAt(code, p, x + {|code|});
  }

  function NextSet(phase: Phase, code: seq<byte>, entry: int): Phase {
    if phase.Entry? && !IsIntervalOne(code, entry) then Second else Counting(0)
  }

  lemma SetRuns(buf: seq<byte>, code: seq<byte>, x: set<int>, t: seq<byte>, phase: Phase, entry: int, p: int, d: int,
                stack: seq<FailurePoint>, done: seq<Leaf>, all: seq<Leaf>)
    requires WfProgram(code, x) && RunsTo(buf, code, x, t, phase, entry, p, d, stack, done, all) && Variant(buf, code, x)
    requires 0 <= p < |buf| && buf[p] == SET_NUMBER_AT
    ensures p + 5 <= |buf| && (phase.Entry? || phase.Second?)
    ensures var i, n := p + 3 + Extract(buf, p + 1), Extract(buf, p + 3);
            && 0 <= i && i + 1 < |buf| && Variant(StoreAt(buf, i, n), code, x)
            && RunsTo(StoreAt(buf, i, n), code, x, t, NextSet(phase, code, entry), entry, p + 5, d, stack, done, all)
  {
    hide WfProgram, Closed, Variant, Rest, Extract, StackTrace, StackOk, IsIntervalOne, IsIntervalMany, StoreAt, IntervalLower, CountPos, JumpPos;
    AtOpcode(buf, code, x, t, phase, entry, p, d, stack, done, all);
    EntryPhase(phase, buf[p]);
    if phase.Entry? {
      EntryInterval(code, x, p);
      IntervalReads(buf, code, x, p);
      SetStep(buf, code, x, t, p, d, stack);
      var buf' := StoreAt(buf, p + 3 + Extract(code, p + 1), Extract(code, p + 3));
      KeepsRuns(buf', code, x, t, NextSet(phase, code, entry), p, p + 5, d, stack, Rest(buf, code, x, t, phase, entry, p, d, stack), done, all);
    } else {
      IntervalReads(buf, code, x, entry);
      SecondStep(buf, code, x, t, entry, p, d, stack);
      var buf' := StoreAt(buf, p + 8, IntervalLower(code, entry));
      KeepsRuns(buf', code, x, t, Counting(0), entry, p + 5, d, stack, Rest(buf, code, x, t, phase, entry, p, d, stack), done, all);
    }
  }

  lemma SucceedRuns(buf: seq<byte>, code: seq<byte>, x: set<int>, t: seq<byte>, phase: Phase, entry: int, p: int, d: int,
                    stack: seq<FailurePoint>, done: seq<Leaf>, all: seq<Leaf>)
    requires WfProgram(code, x) && RunsTo(buf, code, x, t, phase, entry, p, d, stack, done, all) && Variant(buf, code, x)
    requires 0 <= p < |buf| && buf[p] == SUCCEED_N
    ensures phase.Counting? && p + 5 <= |buf| && Extract(buf, p + 3) >= 0
    ensures var n, point := Extract(buf, p + 3), Point(p + 3 + Extract(buf, p + 1), d);
            if n > 0 then
              && Variant(StoreAt(buf, p + 3, n - 1), code, x)
              && RunsTo(StoreAt(buf, p + 3, n - 1), code, x, t, Taking(phase.k), entry, p + 5, d, stack, done, all)
            else
              && buf[p + 3] == NO_OP && buf[p + 4] == NO_OP
              && RunsTo(buf, code, x, t, NoOps(phase.k, false), entry, p + 3, d, stack + [point], done, all)
  {
    hide WfProgram, Closed, Variant, Rest, Extract, StackTrace, StackOk, IsIntervalOne, IsIntervalMany, StoreAt, IntervalLower, IntervalUpper,
      CountPos, JumpPos, IntervalExit;
    AtOpcode(buf, code, x, t, phase, entry, p, d, stack, done, all);
    EntryPhase(phase, buf[p]);
    IntervalReads(buf, code, x, entry);
    var k, rest := phase.k, Rest(buf, code, x, t, phase, entry, p, d, stack);
    if SuccCount(buf, code, entry) > 0 {
      MustStep(buf, code, x, t, entry, p, d, stack, k);
      KeepsRuns(StoreAt(buf, p + 3, Extract(buf, p + 3) - 1), code, x, t, Taking(k), entry, p + 5, d, stack, rest, done, all);
    } else {
      MayStep(buf, code, x, t, entry, p, d, stack, k);
      KeepsRuns(buf, code, x, t, NoOps(k, false), entry, p + 3, d, stack + [Point(IntervalExit(code, entry), d)], rest, done, all);
    }
  }

  lemma NoOpRuns(buf: seq<byte>, code: seq<byte>, x: set<int>, t: seq<byte>, phase: Phase, entry: int, p: int, d: int,
                 stack: seq<FailurePoint>, done: seq<Leaf>, all: seq<Leaf>)
    requires RunsTo(buf, code, x, t, phase, entry, p, d, stack, done, all) && Variant(buf, code, x)
    requires 0 <= p < |buf| && buf[p] == NO_OP
    ensures phase.NoOps?
    ensures RunsTo(buf, code, x, t, if phase.last then Taking(phase.k) else NoOps(phase.k, true), entry, p + 1, d, stack, done, all)
  {
    hide Closed, Variant, Rest, Extract, StackTrace, StackOk, IsIntervalOne, IsIntervalMany;
    AtOpcode(buf, code, x, t, phase, entry, p, d, stack, done, all);
    EntryPhase(phase, buf[p]);
    NoOpStep(buf, code, x, t, entry, p, d, stack, phase.k, phase.last);
    KeepsRuns(buf, code, x, t, if phase.last then Taking(phase.k) else NoOps(phase.k, true), entry, p + 1, d, stack,
              Rest(buf, code, x, t, phase, entry, p, d, stack), done, all);
  }

  lemma JumpNRuns(buf: seq<byte>, code: seq<byte>, x: set<int>, t: seq<byte>, phase: Phase, entry: int, p: int, d: int,
                  stack: seq<FailurePoint>, done: seq<Leaf>, all: seq<Leaf>)
    requires WfProgram(code, x) && RunsTo(buf, code, x, t, phase, entry, p, d, stack, done, all) && Variant(buf, code, x)
    requires 0 <= p < |buf| && buf[p] == JUMP_N
    ensures phase.Again? && p + 5 <= |buf| && p + 5 > entry
    ensures var n, to := Extract(buf, p + 3), p + 3 + Extract(buf, p + 1);
            if n != 0 then
              && Variant(StoreAt(buf, p + 3, n - 1), code, x)
              && RunsTo(StoreAt(buf, p + 3, n - 1), code, x, t, Counting(phase.k), entry, to, d, stack, done, all)
            else
              RunsTo(buf, code, x, t, Entry, p + 5, p + 5, d, stack, done, all)
  {
    hide WfProgram, Closed, Variant, Rest, Extract, StackTrace, StackOk, IsIntervalOne, IsIntervalMany, StoreAt, IntervalLower, IntervalUpper,
      CountPos, JumpPos;
    AtOpcode(buf, code, x, t, phase, entry, p, d, stack, done, all);
    EntryPhase(phase, buf[p]);
    IntervalReads(buf, code, x, entry);
    var k, rest := phase.k, Rest(buf, code, x, t, phase, entry, p, d, stack);
    CounterBounds(code, entry);
    if JumpCount(buf, code, entry) != 0 {
      AgainStep(buf, code, x, t, entry, p, d, stack, k);
      KeepsRuns(StoreAt(buf, p + 3, Extract(buf, p + 3) - 1), code, x, t, Counting(k), entry, CountPos(code, entry), d, stack, rest, done, all);
    } else {
      LeaveStep(buf, code, x, t, entry, p, d, stack, k);
      KeepsRuns(buf, code, x, t, Entry, p + 5, p + 5, d, stack, rest, done, all);
    }
  }
}
