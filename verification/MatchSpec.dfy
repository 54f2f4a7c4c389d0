/** The states `re_match_2` goes through, and the leaves that each state still has to explore. */
module MatchSpec {
  import opened Bytes
  import opened Opcodes
  import opened Machine
  import opened WellFormed
  import opened Traces

  /** A failure point: where to go on, or a dummy (the pattern place is null). */
  datatype FailurePoint = DummyPoint | Point(p: int, d: int)

  /** Where the program counter stands in the command, loop or interval that begins at the current entry
      point; `k` counts the characters an interval has taken. */
  datatype Phase =
    | Entry
    | Body
    | LoopBack
    | Second
    | Counting(k: nat)
    | NoOps(k: nat, last: bool)
    | Taking(k: nat)
    | Again(k: nat)

  // ---- the program while it is being rewritten ----

  /** Position of the jump_n of an interval with upper bound above 1. */
  function JumpPos(code: seq<byte>, p: int): (j: int)
    requires IsIntervalMany(code, p)
    ensures p + 15 < j && j + 5 <= |code|
  {
    p + 15 + OpLen(code, p + 15)
  }

  predicate CounterByte(code: seq<byte>, p: int, i: int)
    requires IsInterval(code, p)
  {
    var c := CountPos(code, p);
    i == c + 3 || i == c + 4 || (IsIntervalMany(code, p) && (i == JumpPos(code, p) + 3 || i == JumpPos(code, p) + 4))
  }

  /** What a maybe_pop_jump is changed to. */
  function Decided(code: seq<byte>, q: int): byte
    requires IsLoop(code, q)
  {
    if Pops(code, q) then POP_FAILURE_JUMP else JUMP
  }

  /** The byte at `i` inside the span of `p` is as compiled, a decided jump, or part of a counter. */
  predicate ByteOk(buf: seq<byte>, code: seq<byte>, p: int, i: int)
    requires 0 <= i < |buf| && i < |code|
  {
    || buf[i] == code[i]
    || (IsLoop(code, p) && i == LoopEnd(code, p) && buf[i] == Decided(code, p))
    || (IsInterval(code, p) && CounterByte(code, p, i))
  }

  ghost predicate SpanOk(buf: seq<byte>, code: seq<byte>, p: int)
    requires |buf| == |code|
  {
    0 <= p && p + Span(code, p) <= |code| &&
    forall i :: p <= i < p + Span(code, p) ==> ByteOk(buf, code, p, i)
  }

  /** An interval begins at the entry point `p`. */
  predicate AtInterval(code: seq<byte>, x: set<int>, p: int) {
    p in x && IsInterval(code, p) && code[p] == SET_NUMBER_AT
  }

  ghost predicate BytesOk(buf: seq<byte>, code: seq<byte>, x: set<int>) {
    |buf| == |code| && forall p :: p in x ==> SpanOk(buf, code, p)
  }

  /** The count in the succeed_n of an interval. */
  function SuccCount(buf: seq<byte>, code: seq<byte>, p: int): int
    requires IsInterval(code, p) && |buf| == |code|
  {
    Extract(buf, CountPos(code, p) + 3)
  }

  /** The counts of all succeed_n stay between 0 and the lower bound. */
  ghost predicate CountsOk(buf: seq<byte>, code: seq<byte>, x: set<int>)
    requires |buf| == |code|
  {
    forall p :: AtInterval(code, x, p) ==> 0 <= SuccCount(buf, code, p) <= IntervalLower(code, p)
  }

  /** `buf` is the compiled pattern `code`, apart from what matching may have changed in it. */
  ghost predicate Variant(buf: seq<byte>, code: seq<byte>, x: set<int>) {
    BytesOk(buf, code, x) && CountsOk(buf, code, x)
  }

  lemma VariantSelf(code: seq<byte>, x: set<int>)
    requires WfProgram(code, x)
    ensures Variant(code, code, x)
  {
    assert forall p :: IsInterval(code, p) ==> SuccCount(code, code, p) == IntervalLower(code, p) by {
      hide Block, Extract, OneChar, OpLen;
    }
    hide WfAt, Span, IsInterval, SuccCount;
  }

  /** Changing a byte that may change keeps the program a variant, as far as bytes go. */
  lemma BytesUpdate(buf: seq<byte>, code: seq<byte>, x: set<int>, p: int, i: int, b: byte)
    requires WfProgram(code, x) && BytesOk(buf, code, x) && p in x
    requires p <= i < p + Span(code, p) && ByteOk(buf[i := b], code, p, i)
    ensures BytesOk(buf[i := b], code, x)
  {
    hide WfAt, Span, IsLoop, IsInterval, CounterByte;
    var new' := buf[i := b];
    forall q | q in x
      ensures SpanOk(new', code, q)
    {
      assert SpanOk(buf, code, q);
      forall j | q <= j < q + Span(code, q)
        ensures ByteOk(new', code, q, j)
      {
        assert ByteOk(buf, code, q, j);
        if q != p {
          assert j != i;
        }
      }
    }
  }

  /** Changes inside the span of `p` leave the counts of other intervals alone. */
  lemma CountsElsewhere(buf: seq<byte>, new': seq<byte>, code: seq<byte>, x: set<int>, p: int)
    requires WfProgram(code, x) && |buf| == |new'| == |code| && p in x && CountsOk(buf, code, x)
    requires forall i :: 0 <= i < |code| && !(p <= i < p + Span(code, p)) ==> new'[i] == buf[i]
    requires AtInterval(code, x, p) ==> 0 <= SuccCount(new', code, p) <= IntervalLower(code, p)
    ensures CountsOk(new', code, x)
  {
    hide WfAt, Span, IsIntervalOne, IsIntervalMany, IntervalLower, Extract;
    forall q | AtInterval(code, x, q)
      ensures 0 <= SuccCount(new', code, q) <= IntervalLower(code, q)
    {
      if q != p {
        CountInSpan(code, q);
        SameNumber(buf, new', CountPos(code, q) + 3);
      }
    }
  }

  lemma SameNumber(a: seq<byte>, b: seq<byte>, i: int)
    requires 0 <= i && i + 1 < |a| == |b| && a[i] == b[i] && a[i + 1] == b[i + 1]
    ensures Extract(a, i) == Extract(b, i)
  {}

  lemma CountInSpan(code: seq<byte>, p: int)
    requires IsInterval(code, p)
    ensures p <= CountPos(code, p) + 3 && CountPos(code, p) + 4 < p + Span(code, p) && 0 <= p && CountPos(code, p) + 4 < |code|
  {
    hide Extract;
    assert !IsLoop(code, p);
  }

  /** The count in its jump_n. */
  function JumpCount(buf: seq<byte>, code: seq<byte>, p: int): int
    requires IsIntervalMany(code, p) && |buf| == |code|
  {
    Extract(buf, JumpPos(code, p) + 3)
  }

  function Max0(n: int): nat {
    if n < 0 then 0 else n
  }

  /** The counters of the interval at `p` after `k` characters: the rest of the lower bound, and how often
      jump_n may still jump back. */
  predicate Counters(buf: seq<byte>, code: seq<byte>, p: int, succ: int, jumps: int) {
    && IsInterval(code, p) && |buf| == |code|
    && SuccCount(buf, code, p) == Max0(succ)
    && (IsIntervalMany(code, p) ==> JumpCount(buf, code, p) == jumps)
  }

  /** The program counter `p` stands where the phase says, and the counters agree with it. */
  predicate Placed(buf: seq<byte>, code: seq<byte>, x: set<int>, phase: Phase, entry: int, p: int)
    requires |buf| == |code|
  {
    match phase
    case Entry => entry == p && p in x + {|code|}
    case Body => entry in x && IsLoop(code, entry) && p == entry + 3
    case LoopBack => entry in x && IsLoop(code, entry) && p == LoopEnd(code, entry)
    case Second =>
      && AtInterval(code, x, entry) && IsIntervalMany(code, entry) && !IsIntervalOne(code, entry)
      && p == entry + 5 && JumpCount(buf, code, entry) == IntervalUpper(code, entry) - 1
    case Counting(k) =>
      && AtInterval(code, x, entry) && k < IntervalUpper(code, entry) && p == CountPos(code, entry)
      && Counters(buf, code, entry, IntervalLower(code, entry) - k, IntervalUpper(code, entry) - 1 - k)
    case NoOps(k, last) =>
      && AtInterval(code, x, entry) && IntervalLower(code, entry) <= k < IntervalUpper(code, entry)
      && p == CountPos(code, entry) + 3 + (if last then 1 else 0)
      && Counters(buf, code, entry, 0, IntervalUpper(code, entry) - 1 - k)
    case Taking(k) =>
      && AtInterval(code, x, entry) && k < IntervalUpper(code, entry) && p == IntervalBody(code, entry)
      && Counters(buf, code, entry, IntervalLower(code, entry) - k - 1, IntervalUpper(code, entry) - 1 - k)
    case Again(k) =>
      && AtInterval(code, x, entry) && IsIntervalMany(code, entry) && !IsIntervalOne(code, entry)
      && 1 <= k <= IntervalUpper(code, entry) && p == JumpPos(code, entry)
      && Counters(buf, code, entry, IntervalLower(code, entry) - k, IntervalUpper(code, entry) - k)
  }

  /** Phases in the order they follow one another while the cursor stays where it is. */
  function Rank(phase: Phase): nat {
    match phase
    case LoopBack => 9
    case Entry => 8
    case Body => 0
    case Second => 7
    case Again(_) => 6
    case Counting(_) => 5
    case NoOps(_, last) => if last then 3 else 4
    case Taking(_) => 2
  }

  // ---- leaves still to be explored ----

  predicate PointOk(x: set<int>, end: int, n: nat, point: FailurePoint) {
    point.Point? ==> point.p in x + {end} && 0 <= point.d <= n
  }

  predicate StackOk(x: set<int>, end: int, n: nat, stack: seq<FailurePoint>) {
    forall k :: 0 <= k < |stack| ==> PointOk(x, end, n, stack[k])
  }

  ghost function PointTrace(code: seq<byte>, x: set<int>, t: seq<byte>, point: FailurePoint): (r: seq<Leaf>)
    requires Closed(code, x) && PointOk(x, |code|, |t|, point)
    ensures |r| > 0
  {
    if point.DummyPoint? then [Dead] else Trace(code, x, t, point.p, point.d)
  }

  /** The last element of the stack is its top. */
  ghost function StackTrace(code: seq<byte>, x: set<int>, t: seq<byte>, stack: seq<FailurePoint>): seq<Leaf>
    requires Closed(code, x) && StackOk(x, |code|, |t|, stack)
  {
    if |stack| == 0 then []
    else PointTrace(code, x, t, stack[|stack| - 1]) + StackTrace(code, x, t, stack[..|stack| - 1])
  }

  /** After `k` characters, before taking the next one. */
  ghost function MoreTrace(code: seq<byte>, x: set<int>, t: seq<byte>, p: int, d: int, k: nat): seq<Leaf>
    requires Closed(code, x) && p in x && IsInterval(code, p) && 0 <= d <= |t| && k < IntervalUpper(code, p)
  {
    IntervalDecodes(code, x, p);
    if TakesAt(code, IntervalBody(code, p), t, d) then CountTrace(code, x, t, p, d + 1, k + 1) else [Dead]
  }

  lemma IntervalDecodes(code: seq<byte>, x: set<int>, p: int)
    requires Closed(code, x) && p in x && IsInterval(code, p)
    ensures Fits(code, p) && Decode(code, p).Count? && Decode(code, p).exit == IntervalExit(code, p)
    ensures code[p] == SET_NUMBER_AT && p < IntervalExit(code, p) && IntervalExit(code, p) in x + {|code|}
  {
    hide Extract, OneChar;
    assert WfAt(code, p, x + {|code|});
  }

  /** Loops and intervals need what is on top of the stack. */
  predicate Stacked(phase: Phase, stack: seq<FailurePoint>) {
    phase.Body? || phase.LoopBack? ==> |stack| > 0
  }

  ghost predicate StateOk(buf: seq<byte>, code: seq<byte>, x: set<int>, t: seq<byte>, phase: Phase, entry: int, p: int, d: int,
                          stack: seq<FailurePoint>)
  {
    && Closed(code, x) && |buf| == |code| && Placed(buf, code, x, phase, entry, p)
    && 0 <= d <= |t| && StackOk(x, |code|, |t|, stack) && Stacked(phase, stack)
  }

  /** The leaves the search still has to explore from a state. */
  ghost function Rest(buf: seq<byte>, code: seq<byte>, x: set<int>, t: seq<byte>, phase: Phase, entry: int, p: int, d: int,
                      stack: seq<FailurePoint>): seq<Leaf>
    requires StateOk(buf, code, x, t, phase, entry, p, d, stack)
  {
    hide Closed, IsLoop, IsIntervalMany, IsIntervalOne, Counters, Takes, Pops;
    match phase
    case Entry => Trace(code, x, t, p, d) + StackTrace(code, x, t, stack)
    case Body =>
      BodyTrace(code, x, t, entry, d, PointTrace(code, x, t, stack[|stack| - 1])) + StackTrace(code, x, t, stack[..|stack| - 1])
    case LoopBack =>
      Trace(code, x, t, entry, d) + (if Pops(code, entry) then [] else PointTrace(code, x, t, stack[|stack| - 1])) +
      StackTrace(code, x, t, stack[..|stack| - 1])
    case Second => IntervalDecodes(code, x, entry); CountTrace(code, x, t, entry, d, 0) + StackTrace(code, x, t, stack)
    case Counting(k) => IntervalDecodes(code, x, entry); CountTrace(code, x, t, entry, d, k) + StackTrace(code, x, t, stack)
    case Again(k) => IntervalDecodes(code, x, entry); CountTrace(code, x, t, entry, d, k) + StackTrace(code, x, t, stack)
    case NoOps(k, _) => MoreTrace(code, x, t, entry, d, k) + StackTrace(code, x, t, stack)
    case Taking(k) => MoreTrace(code, x, t, entry, d, k) + StackTrace(code, x, t, stack)
  }
}
