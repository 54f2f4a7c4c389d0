/** `re_compile_fastmap`: which characters can start a match. */
module Fastmap {
  import opened Allocation
  import opened Bytes
  import opened Opcodes
  import opened Machine
  import opened WellFormed
  import opened Traces
  import opened MatchSpec
  import opened MatchSteps
  import opened IntervalSteps
  import opened FastmapSpec
  import opened PatternBuffers

  // ---- where the scan stands ----

  /** At an entry point, at the body of a loop or interval, or at a later command of an interval. */
  datatype Spot = AtEntry | AtChars | AtSecond | AtCount

  ghost predicate SpotOk(buf: seq<byte>, code: seq<byte>, x: set<int>, spot: Spot, entry: int, p: int) {
    && Closed(code, x) && |buf| == |code| && entry in x + {|code|}
    && match spot
       case AtEntry => p == entry
       case AtChars => CharCommand(code, p) && forall i :: p <= i < p + OpLen(code, p) ==> buf[i] == code[i]
       case AtSecond => AtInterval(code, x, entry) && !IsIntervalOne(code, entry) && p == entry + 5
       case AtCount => AtInterval(code, x, entry) && p == CountPos(code, entry)
  }

  ghost predicate FirstAt(buf: seq<byte>, code: seq<byte>, x: set<int>, spot: Spot, entry: int, p: int, c: byte)
    requires SpotOk(buf, code, x, spot, entry, p)
  {
    if spot.AtChars? then Starts(code, p, c) else First(buf, code, x, entry, c)
  }

  ghost predicate NullAt(buf: seq<byte>, code: seq<byte>, x: set<int>, spot: Spot, entry: int, p: int)
    requires SpotOk(buf, code, x, spot, entry, p)
  {
    !spot.AtChars? && Null(buf, code, x, entry)
  }

  /** A bound on the work left, to see that the scan ends. */
  ghost function Work(code: seq<byte>, x: set<int>, p: int): (n: nat)
    requires Closed(code, x) && p in x + {|code|}
    ensures n > 0
    decreases |code| - p
  {
    if p == |code| then 1
    else
      hide Closed, Decode, IsLoop, IsInterval;
      DecodeLeads(code, x, p);
      match Decode(code, p)
      case Match(_, _) => 2
      case Take(_) => 2
      case Skip(next) => 1 + Work(code, x, next)
      case Dummy(next) => 1 + Work(code, x, next)
      case Goto(target) => 1 + Work(code, x, target)
      case Choice(first, second) => 1 + Work(code, x, first) + Work(code, x, second)
      case Loop(exit) => 3 + Work(code, x, exit)
      case PlusLoop(_) => 3
      case Count(exit) => 5 + Work(code, x, exit)
  }

  ghost function WorkAt(code: seq<byte>, x: set<int>, spot: Spot, entry: int): nat
    requires Closed(code, x) && entry in x + {|code|}
  {
    match spot
    case AtEntry => Work(code, x, entry)
    case AtChars => 2
    case AtSecond => Max0(Work(code, x, entry) - 1)
    case AtCount => Max0(Work(code, x, entry) - 2)
  }

  ghost predicate PointsOk(code: seq<byte>, x: set<int>, stack: seq<int>) {
    forall k :: 0 <= k < |stack| ==> stack[k] in x
  }

  ghost function WorkOf(code: seq<byte>, x: set<int>, stack: seq<int>): nat
    requires Closed(code, x) && PointsOk(code, x, stack)
  {
    if |stack| == 0 then 0 else WorkOf(code, x, stack[..|stack| - 1]) + Work(code, x, stack[|stack| - 1])
  }

  ghost predicate FirstOf(buf: seq<byte>, code: seq<byte>, x: set<int>, stack: seq<int>, c: byte)
    requires Closed(code, x) && |buf| == |code| && PointsOk(code, x, stack)
  {
    if |stack| == 0 then false
    else FirstOf(buf, code, x, stack[..|stack| - 1], c) || First(buf, code, x, stack[|stack| - 1], c)
  }

  ghost predicate NullOf(buf: seq<byte>, code: seq<byte>, x: set<int>, stack: seq<int>)
    requires Closed(code, x) && |buf| == |code| && PointsOk(code, x, stack)
  {
    if |stack| == 0 then false
    else NullOf(buf, code, x, stack[..|stack| - 1]) || Null(buf, code, x, stack[|stack| - 1])
  }

  /** What has been entered, what the current path leads to and what the stacked points lead to is
      exactly what the whole pattern can start with. */
  ghost predicate Covers(buf: seq<byte>, code: seq<byte>, x: set<int>, spot: Spot, entry: int, p: int, path: bool,
                         stack: seq<int>, fm: seq<bool>, canBeNull: bool)
  {
    && SpotOk(buf, code, x, spot, entry, p) && 0 in x + {|code|} && PointsOk(code, x, stack) && |fm| == 256
    && (!path ==> p == |code|)
    && (Null(buf, code, x, 0) <==> canBeNull || (path && NullAt(buf, code, x, spot, entry, p)) || NullOf(buf, code, x, stack))
    && (forall c: byte :: First(buf, code, x, 0, c) <==>
          fm[c] || FirstAt(buf, code, x, spot, entry, p, c) || FirstOf(buf, code, x, stack, c))
  }

  ghost function Left(buf: seq<byte>, code: seq<byte>, x: set<int>, spot: Spot, entry: int, p: int, path: bool,
                      stack: seq<int>, fm: seq<bool>, canBeNull: bool): nat
    requires Covers(buf, code, x, spot, entry, p, path, stack, fm, canBeNull)
  {
    WorkAt(code, x, spot, entry) + WorkOf(code, x, stack)
  }

  // ---- steps ----

  lemma PushFirst(buf: seq<byte>, code: seq<byte>, x: set<int>, stack: seq<int>, p: int)
    requires Closed(code, x) && |buf| == |code| && PointsOk(code, x, stack) && p in x
    ensures PointsOk(code, x, stack + [p])
    ensures forall c: byte :: FirstOf(buf, code, x, stack + [p], c) <==> FirstOf(buf, code, x, stack, c) || First(buf, code, x, p, c)
    ensures NullOf(buf, code, x, stack + [p]) <==> NullOf(buf, code, x, stack) || Null(buf, code, x, p)
    ensures WorkOf(code, x, stack + [p]) == WorkOf(code, x, stack) + Work(code, x, p)
  {
    hide Closed, First, Null, Work;
    var s := stack + [p];
    assert s[..|s| - 1] == stack;
  }

  lemma FirstEnd(buf: seq<byte>, code: seq<byte>, x: set<int>)
    requires Closed(code, x) && |buf| == |code|
    ensures Null(buf, code, x, |code|) && Work(code, x, |code|) == 1
    ensures forall c: byte :: !First(buf, code, x, |code|, c)
  {
    hide Closed;
  }

  /** A command with one successor. */
  lemma FirstForward(buf: seq<byte>, code: seq<byte>, x: set<int>, p: int)
    requires Closed(code, x) && |buf| == |code| && p in x && Fits(code, p)
    requires code[p] == START_MEMORY || code[p] == STOP_MEMORY || code[p] == PUSH_DUMMY_FAILURE || code[p] == JUMP_PAST_ALT
    ensures var next := if code[p] == JUMP_PAST_ALT then Target(code, p) else p + OpLen(code, p);
            && next in x + {|code|} && p < next
            && (forall c: byte :: First(buf, code, x, p, c) <==> First(buf, code, x, next, c))
            && (Null(buf, code, x, p) <==> Null(buf, code, x, next))
            && Work(code, x, p) == 1 + Work(code, x, next)
  {
    hide Closed, Decode, Extract, IsLoop, IsInterval, Starts;
    DecodeLeads(code, x, p);
    DecodeSimple(code, p);
  }

  lemma FirstChoice(buf: seq<byte>, code: seq<byte>, x: set<int>, p: int)
    requires Closed(code, x) && |buf| == |code| && p in x && Fits(code, p) && code[p] == ON_FAILURE_JUMP && !IsLoop(code, p)
    ensures var a, b := p + 3, Target(code, p);
            && a in x + {|code|} && b in x + {|code|}
            && (forall c: byte :: First(buf, code, x, p, c) <==> First(buf, code, x, a, c) || First(buf, code, x, b, c))
            && (Null(buf, code, x, p) <==> Null(buf, code, x, a) || Null(buf, code, x, b))
            && Work(code, x, p) == 1 + Work(code, x, a) + Work(code, x, b)
  {
    hide Closed, Decode, Extract, IsLoop, IsInterval, Starts;
    DecodeLeads(code, x, p);
    DecodeSimple(code, p);
  }

  lemma FirstLoop(buf: seq<byte>, code: seq<byte>, x: set<int>, p: int)
    requires Closed(code, x) && |buf| == |code| && p in x && IsLoop(code, p)
    ensures var b := Target(code, p);
            && b in x + {|code|} && CharCommand(code, p + 3)
            && (forall c: byte :: First(buf, code, x, p, c) <==> Starts(code, p + 3, c) || First(buf, code, x, b, c))
            && (Null(buf, code, x, p) <==> Null(buf, code, x, b))
            && Work(code, x, p) == 3 + Work(code, x, b)
  {
    hide Closed, Decode, Extract, IsLoop, IsInterval, Starts, First, Null, Work, CharCommand, Leads, Shape;
    LoopLeads(code, x, p);
    StartsOk(code, x, p);
    InsideCode(code, x, p);
    var b := Target(code, p);
    forall c: byte
      ensures First(buf, code, x, p, c) <==> Starts(code, p + 3, c) || First(buf, code, x, b, c)
    {
      LoopFirst(buf, code, x, p, b, c);
    }
    LoopNull(buf, code, x, p, b);
    LoopWork(code, x, p, b);
  }

  lemma LoopFirst(buf: seq<byte>, code: seq<byte>, x: set<int>, p: int, b: int, c: byte)
    requires Closed(code, x) && |buf| == |code| && p in x && p < |code| && Fits(code, p) && Decode(code, p) == Loop(b) && b in x + {|code|}
    requires CharCommand(code, p + 3)
    ensures First(buf, code, x, p, c) <==> Starts(code, p + 3, c) || First(buf, code, x, b, c)
  {
    hide Closed, Decode, Extract, IsLoop, IsInterval, Starts, CharCommand, Leads, Shape;
  }

  lemma LoopNull(buf: seq<byte>, code: seq<byte>, x: set<int>, p: int, b: int)
    requires Closed(code, x) && |buf| == |code| && p in x && p < |code| && Fits(code, p) && Decode(code, p) == Loop(b) && b in x + {|code|}
    ensures Null(buf, code, x, p) <==> Null(buf, code, x, b)
  {
    hide Closed, Decode, Extract, IsLoop, IsInterval, Leads, Shape;
  }

  lemma LoopWork(code: seq<byte>, x: set<int>, p: int, b: int)
    requires Closed(code, x) && p in x && p < |code| && Fits(code, p) && Decode(code, p) == Loop(b) && b in x + {|code|}
    ensures Work(code, x, p) == 3 + Work(code, x, b)
  {
    hide Closed, Decode, Extract, IsLoop, IsInterval, Leads, Shape;
  }

  lemma InsideCode(code: seq<byte>, x: set<int>, p: int)
    requires IsLoop(code, p)
    ensures p + 3 <= |code|
  {}

  lemma LoopLeads(code: seq<byte>, x: set<int>, p: int)
    requires Closed(code, x) && p in x && IsLoop(code, p)
    ensures var b := Target(code, p);
            p + 3 < b && b in x + {|code|} && Fits(code, p) && Decode(code, p) == Loop(b)
  {
    hide Closed, Decode, Extract, IsLoop, IsInterval;
    LoopCommand(code, p);
    DecodeLeads(code, x, p);
  }

  lemma LoopCommand(code: seq<byte>, p: int)
    requires IsLoop(code, p)
    ensures Fits(code, p) && Decode(code, p) == Loop(LoopEnd(code, p) + 3) && Target(code, p) == LoopEnd(code, p) + 3
  {
    hide Extract;
  }

  lemma PlusLoopAt(code: seq<byte>, x: set<int>, p: int)
    requires Closed(code, x) && p in x && Fits(code, p) && code[p] == DUMMY_FAILURE_JUMP
    ensures IsLoop(code, p + 3) && p + 3 in x && CharCommand(code, p + 6)
  {
    hide Closed, Decode, Extract, IsLoop, IsInterval, Starts;
    PlusCommand(code, x, p);
    DecodeLeads(code, x, p);
    StartsOk(code, x, p);
  }

  lemma FirstPlus(buf: seq<byte>, code: seq<byte>, x: set<int>, p: int)
    requires Closed(code, x) && |buf| == |code| && p in x && Fits(code, p) && code[p] == DUMMY_FAILURE_JUMP
    requires CharCommand(code, p + 6)
    ensures forall c: byte :: First(buf, code, x, p, c) <==> Starts(code, p + 6, c)
    ensures !Null(buf, code, x, p) && Work(code, x, p) == 3
  {
    hide Closed, Decode, Extract, IsLoop, IsInterval, Starts;
    PlusCommand(code, x, p);
    DecodeLeads(code, x, p);
    StartsOk(code, x, p);
  }

  lemma PlusCommand(code: seq<byte>, x: set<int>, p: int)
    requires Closed(code, x) && p in x && Fits(code, p) && code[p] == DUMMY_FAILURE_JUMP
    ensures Decode(code, p).PlusLoop?
  {
    assert WfAt(code, p, x + {|code|});
    hide Closed, Extract;
  }

  lemma FirstChars(buf: seq<byte>, code: seq<byte>, x: set<int>, p: int)
    requires Closed(code, x) && |buf| == |code| && p in x && Fits(code, p) && Expected(Body, code[p])
    ensures CharCommand(code, p) && !Null(buf, code, x, p) && Work(code, x, p) == 2
    ensures forall c: byte :: First(buf, code, x, p, c) <==> Starts(code, p, c)
  {
    hide Closed, Decode, Extract, IsLoop, IsInterval, Starts;
    DecodeLeads(code, x, p);
    DecodeChars(code, p);
    StartsOk(code, x, p);
  }

  lemma FirstCount(buf: seq<byte>, code: seq<byte>, x: set<int>, p: int)
    requires Closed(code, x) && |buf| == |code| && AtInterval(code, x, p)
    ensures var e, b := IntervalExit(code, p), IntervalBody(code, p);
            && e in x + {|code|} && CharCommand(code, b)
            && (forall c: byte :: First(buf, code, x, p, c) <==>
                  Starts(code, b, c) || (MaySkip(buf, code, p) && First(buf, code, x, e, c)))
            && (Null(buf, code, x, p) <==> MaySkip(buf, code, p) && Null(buf, code, x, e))
            && Work(code, x, p) == 5 + Work(code, x, e)
  {
    hide Closed, Decode, Extract, IsLoop, IsIntervalOne, IsIntervalMany, Starts, MaySkip;
    IntervalDecodes(code, x, p);
    DecodeLeads(code, x, p);
    StartsOk(code, x, p);
  }

  // ---- the same as steps of the scan ----

  lemma ScanOp(buf: seq<byte>, code: seq<byte>, x: set<int>, spot: Spot, entry: int, p: int, path: bool, stack: seq<int>,
               fm: seq<bool>, canBeNull: bool)
    requires Covers(buf, code, x, spot, entry, p, path, stack, fm, canBeNull) && Variant(buf, code, x) && p != |code|
    ensures 0 <= p < |buf| && |buf| == |code| && path
    ensures spot.AtEntry? ==> p in x && Fits(code, p) && Expected(Entry, buf[p]) && forall i :: p <= i < p + OpLen(code, p) ==> buf[i] == code[i]
    ensures spot.AtChars? ==> CharCommand(code, p) && Expected(Body, buf[p]) && forall i :: p <= i < p + OpLen(code, p) ==> buf[i] == code[i]
    ensures spot.AtSecond? ==> buf[p] == SET_NUMBER_AT
    ensures spot.AtCount? ==> buf[p] == SUCCEED_N
  {
    hide Closed, Variant, First, Null, FirstOf, NullOf, PointsOk, Extract, Starts, OpLen, NullAt, FirstAt;
    match spot
    case AtEntry =>
      EntryBytes(buf, code, x, p);
      EntryOp(code, x, p);
      OpLenPositive(code, p);
    case AtChars => OpLenPositive(code, p);
    case AtSecond =>
      IntervalBytes(buf, code, x, entry);
      CounterBounds(code, entry);
    case AtCount =>
      IntervalBytes(buf, code, x, entry);
      CounterBounds(code, entry);
  }

  lemma OpLenPositive(code: seq<byte>, p: int)
    requires Fits(code, p)
    ensures OpLen(code, p) > 0 && 0 <= p < |code|
  {}

  ghost predicate Scans(buf: seq<byte>, code: seq<byte>, x: set<int>, spot: Spot, entry: int, p: int, path: bool, stack: seq<int>,
                        fm: seq<bool>, canBeNull: bool, bound: int)
  {
    && Covers(buf, code, x, spot, entry, p, path, stack, fm, canBeNull)
    && Left(buf, code, x, spot, entry, p, path, stack, fm, canBeNull) < bound
  }

  lemma ScanPop(buf: seq<byte>, code: seq<byte>, x: set<int>, spot: Spot, entry: int, p: int, path: bool, stack: seq<int>,
                fm: seq<bool>, canBeNull: bool)
    requires Covers(buf, code, x, spot, entry, p, path, stack, fm, canBeNull) && p == |code| && |stack| > 0
    ensures var top, below := stack[|stack| - 1], stack[..|stack| - 1];
            top != |code| &&
            Scans(buf, code, x, AtEntry, top, top, true, below, fm, canBeNull || path,
                  Left(buf, code, x, spot, entry, p, path, stack, fm, canBeNull))
  {
    hide Closed, First, Null, Work, Extract, Starts;
    AtTheEnd(buf, code, x, spot, entry, p);
    FirstEnd(buf, code, x);
    EntryInside(code, x, stack[|stack| - 1]);
  }

  lemma AtTheEnd(buf: seq<byte>, code: seq<byte>, x: set<int>, spot: Spot, entry: int, p: int)
    requires SpotOk(buf, code, x, spot, entry, p) && p == |code|
    ensures spot.AtEntry?
  {
    hide Closed, Extract;
    if spot.AtSecond? || spot.AtCount? {
      CounterBounds(code, entry);
    }
  }

  lemma ScanForward(buf: seq<byte>, code: seq<byte>, x: set<int>, entry: int, p: int, path: bool, stack: seq<int>,
                    fm: seq<bool>, canBeNull: bool)
    requires Covers(buf, code, x, AtEntry, entry, p, path, stack, fm, canBeNull) && Variant(buf, code, x) && p != |code|
    requires 0 <= p < |buf|
    requires buf[p] == START_MEMORY || buf[p] == STOP_MEMORY || buf[p] == PUSH_DUMMY_FAILURE || buf[p] == JUMP_PAST_ALT
    ensures buf[p] == JUMP_PAST_ALT ==> p + 3 <= |buf|
    ensures var next := if buf[p] == JUMP_PAST_ALT then p + 3 + Extract(buf, p + 1) else if buf[p] == PUSH_DUMMY_FAILURE then p + 1 else p + 3;
            Scans(buf, code, x, AtEntry, next, next, path, stack, fm, canBeNull, Left(buf, code, x, AtEntry, entry, p, path, stack, fm, canBeNull))
  {
    hide Closed, Variant, First, Null, Work, Extract, FirstOf, NullOf, WorkOf, PointsOk, Starts;
    ScanOp(buf, code, x, AtEntry, entry, p, path, stack, fm, canBeNull);
    FirstForward(buf, code, x, p);
    if buf[p] == JUMP_PAST_ALT {
      SameNumber(buf, code, p + 1);
    }
  }

  lemma WfJump(code: seq<byte>, p: int, y: set<int>)
    requires WfAt(code, p, y) && (code[p] == JUMP_PAST_ALT || code[p] == DUMMY_FAILURE_JUMP)
    ensures 0 <= p && p + 3 <= |code|
    ensures code[p] == JUMP_PAST_ALT ==>
            && Extract(code, p + 1) >= 0
            && (Extract(code, p + 1) == 0 ==> p + 3 in y && (p + 3 == |code| || code[p + 3] == PUSH_DUMMY_FAILURE))
    ensures code[p] == DUMMY_FAILURE_JUMP ==> Extract(code, p + 1) == 3
  {
    hide Extract, IsLoop;
  }

  lemma ClosedAt(code: seq<byte>, x: set<int>, p: int)
    requires Closed(code, x) && p in x
    ensures WfAt(code, p, x + {|code|})
  {
    hide WfAt;
  }

  /** The jump behind an alternative never goes back; if it goes nowhere, a push_dummy_failure or the end follows. */
  lemma JumpForward(buf: seq<byte>, code: seq<byte>, x: set<int>, p: int)
    requires Closed(code, x) && Variant(buf, code, x) && p in x && 0 <= p && p + 3 <= |buf|
    ensures |buf| == |code|
    ensures buf[p] == JUMP_PAST_ALT && Extract(buf, p + 1) <= 0 ==>
            Extract(buf, p + 1) == 0 && if p + 3 < |buf| then buf[p + 3] == PUSH_DUMMY_FAILURE else !NoLastJump(code, x, p + 3)
    ensures buf[p] == DUMMY_FAILURE_JUMP ==> Extract(buf, p + 1) == 3
  {
    hide Closed, Variant, Extract, WfAt;
    EntryBytes(buf, code, x, p);
    ClosedAt(code, x, p);
    if code[p] == JUMP_PAST_ALT || code[p] == DUMMY_FAILURE_JUMP {
      WfJump(code, p, x + {|code|});
      SameNumber(buf, code, p + 1);
      if code[p] == JUMP_PAST_ALT && Extract(code, p + 1) == 0 && p + 3 < |code| {
        EntryByte(buf, code, x, p + 3);
      }
    }
  }

  lemma ScanPlus(buf: seq<byte>, code: seq<byte>, x: set<int>, entry: int, p: int, path: bool, stack: seq<int>,
                 fm: seq<bool>, canBeNull: bool)
    requires Covers(buf, code, x, AtEntry, entry, p, path, stack, fm, canBeNull) && Variant(buf, code, x) && p != |code|
    requires 0 <= p < |buf| && buf[p] == DUMMY_FAILURE_JUMP
    ensures p + 3 <= |buf|
    ensures Scans(buf, code, x, AtChars, p + 3, p + 6, path, stack, fm, canBeNull, Left(buf, code, x, AtEntry, entry, p, path, stack, fm, canBeNull))
  {
    hide Closed, Variant, First, Null, Work, Extract, FirstOf, NullOf, WorkOf, PointsOk, Starts;
    ScanOp(buf, code, x, AtEntry, entry, p, path, stack, fm, canBeNull);
    PlusLoopAt(code, x, p);
    FirstPlus(buf, code, x, p);
    LoopBytes(buf, code, x, p + 3);
  }

  /** A point is pushed unless it is the end of the pattern, which makes the empty match possible. */
  ghost predicate Pushed(code: seq<byte>, stack: seq<int>, canBeNull: bool, to: int, stack': seq<int>, canBeNull': bool) {
    if to < |code| then stack' == stack + [to] && canBeNull' == canBeNull else stack' == stack && canBeNull'
  }

  lemma ScanOnFailure(buf: seq<byte>, code: seq<byte>, x: set<int>, entry: int, p: int, path: bool, stack: seq<int>,
                      fm: seq<bool>, canBeNull: bool, stack': seq<int>, canBeNull': bool)
    requires Covers(buf, code, x, AtEntry, entry, p, path, stack, fm, canBeNull) && Variant(buf, code, x) && p != |code|
    requires 0 <= p && p + 3 <= |buf| && buf[p] == ON_FAILURE_JUMP
    requires Pushed(code, stack, canBeNull, p + 3 + Extract(buf, p + 1), stack', canBeNull')
    ensures var spot := if IsLoop(code, p) then AtChars else AtEntry;
            Scans(buf, code, x, spot, p + if IsLoop(code, p) then 0 else 3, p + 3, path, stack', fm, canBeNull',
                  Left(buf, code, x, AtEntry, entry, p, path, stack, fm, canBeNull))
  {
    hide Closed, Variant, First, Null, Work, Extract, FirstOf, NullOf, WorkOf, PointsOk, Starts, IsLoop;
    ScanOp(buf, code, x, AtEntry, entry, p, path, stack, fm, canBeNull);
    SameNumber(buf, code, p + 1);
    FirstEnd(buf, code, x);
    var to := Target(code, p);
    if IsLoop(code, p) {
      FirstLoop(buf, code, x, p);
      LoopBytes(buf, code, x, p);
      LoopBodyLen(code, p);
    } else {
      FirstChoice(buf, code, x, p);
    }
    ToInside(code, x, to);
    if to < |code| {
      PushFirst(buf, code, x, stack, to);
    }
  }

  lemma LoopBodyLen(code: seq<byte>, p: int)
    requires IsLoop(code, p)
    ensures Fits(code, p + 3) && p + 3 + OpLen(code, p + 3) == LoopEnd(code, p) && p < |code|
  {}

  lemma ToInside(code: seq<byte>, x: set<int>, to: int)
    requires Closed(code, x) && to in x + {|code|}
    ensures to <= |code| && (to < |code| ==> to in x)
  {
    if to in x {
      assert WfAt(code, to, x + {|code|});
    }
    hide Closed, Extract;
  }

  lemma ScanSet(buf: seq<byte>, code: seq<byte>, x: set<int>, spot: Spot, entry: int, p: int, path: bool, stack: seq<int>,
                fm: seq<bool>, canBeNull: bool)
    requires Covers(buf, code, x, spot, entry, p, path, stack, fm, canBeNull) && Variant(buf, code, x) && p != |code|
    requires 0 <= p < |buf| && buf[p] == SET_NUMBER_AT
    ensures var next := if spot.AtEntry? && !IsIntervalOne(code, entry) then AtSecond else AtCount;
            Scans(buf, code, x, next, entry, p + 5, path, stack, fm, canBeNull, Left(buf, code, x, spot, entry, p, path, stack, fm, canBeNull))
  {
    hide Closed, Variant, First, Null, Work, Extract, FirstOf, NullOf, WorkOf, PointsOk, Starts, IsIntervalOne, IsIntervalMany;
    ScanOp(buf, code, x, spot, entry, p, path, stack, fm, canBeNull);
    if spot.AtEntry? {
      EntryInterval(code, x, p);
    }
    FirstCount(buf, code, x, entry);
    CounterBounds(code, entry);
  }

  lemma ScanSucceed(buf: seq<byte>, code: seq<byte>, x: set<int>, spot: Spot, entry: int, p: int, path: bool, stack: seq<int>,
                    fm: seq<bool>, canBeNull: bool, stack': seq<int>, canBeNull': bool)
    requires Covers(buf, code, x, spot, entry, p, path, stack, fm, canBeNull) && Variant(buf, code, x) && p != |code|
    requires 0 <= p && p + 5 <= |buf| && buf[p] == SUCCEED_N
    requires if Extract(buf, p + 3) == 0 then Pushed(code, stack, canBeNull, p + 3 + Extract(buf, p + 1), stack', canBeNull')
             else stack' == stack && canBeNull' == canBeNull
    ensures Scans(buf, code, x, AtChars, entry, p + 5, path, stack', fm, canBeNull', Left(buf, code, x, spot, entry, p, path, stack, fm, canBeNull))
  {
    hide Closed, Variant, First, Null, Work, Extract, FirstOf, NullOf, WorkOf, PointsOk, Starts, IsIntervalOne, IsIntervalMany,
      IntervalExit, CharCommand, OpLen;
    ScanOp(buf, code, x, spot, entry, p, path, stack, fm, canBeNull);
    FirstCount(buf, code, x, entry);
    IntervalReads(buf, code, x, entry);
    SetLayout(code, entry);
    IntervalCharBytes(buf, code, x, entry);
    FirstEnd(buf, code, x);
    var to := IntervalExit(code, entry);
    ToInside(code, x, to);
    if Extract(buf, p + 3) == 0 && to < |code| {
      PushFirst(buf, code, x, stack, to);
    }
  }

  lemma IntervalCharBytes(buf: seq<byte>, code: seq<byte>, x: set<int>, p: int)
    requires Variant(buf, code, x) && AtInterval(code, x, p)
    ensures |buf| == |code| && CountPos(code, p) + 5 == IntervalBody(code, p)
    ensures var b := IntervalBody(code, p); forall i :: b <= i < b + OpLen(code, b) ==> 0 <= i < |code| && buf[i] == code[i]
  {
    hide Variant, Extract;
    IntervalBytes(buf, code, x, p);
    IntervalAfterBody(code, p);
    CounterBounds(code, p);
  }

  /** A command that matches characters ends the path. */
  lemma ScanChars(buf: seq<byte>, code: seq<byte>, x: set<int>, spot: Spot, entry: int, p: int, path: bool, stack: seq<int>,
                  fm: seq<bool>, canBeNull: bool, fm': seq<bool>)
    requires Covers(buf, code, x, spot, entry, p, path, stack, fm, canBeNull) && Variant(buf, code, x) && p != |code|
    requires 0 <= p < |buf| && Expected(Body, buf[p])
    requires CharCommand(code, p) && |fm'| == 256 && forall c: byte :: fm'[c] <==> fm[c] || Starts(code, p, c)
    ensures Scans(buf, code, x, AtEntry, |code|, |code|, false, stack, fm', canBeNull, Left(buf, code, x, spot, entry, p, path, stack, fm, canBeNull))
  {
    hide Closed, Variant, First, Null, Work, Extract, FirstOf, NullOf, WorkOf, PointsOk, Starts, IsIntervalOne, IsIntervalMany, OpLen;
    ScanOp(buf, code, x, spot, entry, p, path, stack, fm, canBeNull);
    FirstEnd(buf, code, x);
    if spot.AtEntry? {
      FirstChars(buf, code, x, p);
    }
  }

  lemma ScanStart(buf: seq<byte>, code: seq<byte>, x: set<int>, fm: seq<bool>)
    requires WfProgram(code, x) && Closed(code, x) && |buf| == |code| && |fm| == 256 && forall c: byte :: !fm[c]
    ensures Covers(buf, code, x, AtEntry, 0, 0, true, [], fm, false)
  {
    hide Closed, First, Null, WfProgram;
    StartIn(code, x);
  }

  lemma ScanDone(buf: seq<byte>, code: seq<byte>, x: set<int>, spot: Spot, entry: int, p: int, path: bool, stack: seq<int>,
                 fm: seq<bool>, canBeNull: bool)
    requires Covers(buf, code, x, spot, entry, p, path, stack, fm, canBeNull)
    ensures Closed(code, x) && |buf| == |code| && 0 in x + {|code|} && |fm| == 256
    ensures canBeNull ==> Null(buf, code, x, 0)
    ensures p == |code| && |stack| == 0 ==> (Null(buf, code, x, 0) <==> canBeNull || path)
    ensures p == |code| && |stack| == 0 ==> forall c: byte :: fm[c] <==> First(buf, code, x, 0, c)
  {
    hide Closed, First, Null;
    if p == |code| {
      AtTheEnd(buf, code, x, spot, entry, p);
      FirstEnd(buf, code, x);
    }
  }

  // ---- re_compile_fastmap ----

  /** Enter the characters of the command at `p`. */
  method EnterChars(buffer: array<byte>, p: int, fastmap: array<bool>, ghost code: seq<byte>)
    requires fastmap.Length == 256 && |code| <= buffer.Length && CharCommand(code, p)
    requires forall i :: p <= i < p + OpLen(code, p) ==> buffer[i] == code[i]
    modifies fastmap
    ensures forall c: byte :: fastmap[c] <==> old(fastmap[c]) || Starts(code, p, c)
  {
    hide HasBit;
    OpLenPositive(code, p);
    var op := buffer[p];
    if op == EXACTN {
      fastmap[buffer[p + 2]] := true;
    } else if op == ANYCHAR {
      for j := 0 to 256
        invariant forall k: byte :: fastmap[k] <==> old(fastmap[k]) || k < j
      {
        fastmap[j] := true;
      }
    } else {
      var n := buffer[p + 1] as int * 8;
      if op == CHARSET_NOT {
        for j := n to 256
          invariant forall k: byte :: fastmap[k] <==> old(fastmap[k]) || n <= k < j
        {
          fastmap[j] := true;
        }
      }
      var j := n - 1;
      while j >= 0
        invariant -1 <= j < n
        invariant forall k: byte :: fastmap[k] <==> old(fastmap[k]) || (j < k < n && Takes(code, p, k)) || (op == CHARSET_NOT && n <= k)
      {
        assert buffer[p + 2 + j / 8] == code[p + 2 + j / 8];
        assert Takes(code, p, j) <==> (HasBit(buffer[p + 2 + j / 8], j % 8) <==> op == CHARSET);
        if HasBit(buffer[p + 2 + j / 8], j % 8) == (op == CHARSET) {
          fastmap[j] := true;
        }
        j := j - 1;
      }
    }
  }

  lemma EntryInside(code: seq<byte>, x: set<int>, p: int)
    requires Closed(code, x) && p in x
    ensures p != |code|
  {
    assert WfAt(code, p, x + {|code|});
    hide Closed;
  }

  /** The local variables of `re_compile_fastmap`. */
  class Scan {
    const bufp: PatternBuffer
    const buffer: array<byte>
    const pend: nat
    const fastmap: array<bool>
    const mem: Allocator
    var p: int
    var stack: seq<int>
    var pathCanBeNull: bool

    ghost const code: seq<byte>
    ghost const x: set<int>
    ghost var spot: Spot
    ghost var entry: int

    ghost function Buf(): seq<byte>
      requires pend <= buffer.Length
      reads buffer
    {
      buffer[..pend]
    }

    ghost predicate Valid()
      reads this, bufp`canBeNull, buffer, fastmap
    {
      && pend <= buffer.Length && |code| == pend && WfProgram(code, x) && Closed(code, x) && Variant(Buf(), code, x)
      && fastmap.Length == 256 && EndSafe(buffer[..], pend, code, x)
      && Covers(Buf(), code, x, spot, entry, p, pathCanBeNull, stack, fastmap[..], bufp.canBeNull)
    }

    /** The work left. */
    ghost function Todo(): nat
      requires Valid()
      reads this, bufp`canBeNull, buffer, fastmap
    {
      Left(Buf(), code, x, spot, entry, p, pathCanBeNull, stack, fastmap[..], bufp.canBeNull)
    }

    constructor (bufp: PatternBuffer, fastmap: array<bool>, mem: Allocator)
      requires bufp.Compiled() && bufp.Scannable() && fastmap.Length == 256 && (forall c: byte :: !fastmap[c]) && !bufp.canBeNull
      ensures this.bufp == bufp && buffer == bufp.buffer && pend == bufp.used && this.fastmap == fastmap && this.mem == mem
      ensures code == bufp.code && x == bufp.x && Valid()
    {
      hide WfProgram, Closed, Variant, Covers;
      this.bufp, this.buffer, this.pend, this.fastmap, this.mem := bufp, bufp.buffer, bufp.used, fastmap, mem;
      this.code, this.x := bufp.code, bufp.x;
      p, stack, pathCanBeNull, spot, entry := 0, [], true, AtEntry, 0;
      new;
      ScanStart(Buf(), code, x, fastmap[..]);
    }

    /** EXTRACT_NUMBER. */
    method Number(i: int) returns (n: int)
      requires 0 <= i && i + 1 < pend <= buffer.Length
      ensures n == Extract(Buf(), i)
    {
      n := (buffer[i] as int) + 256 * (if buffer[i + 1] < 128 then buffer[i + 1] as int else buffer[i + 1] as int - 256);
    }

    /** Keep a place to look at later, unless it is the end of the pattern; there may be no room for it. */
    method Remember(to: int) returns (ok: bool)
      requires !mem.failed
      modifies `stack, bufp`canBeNull, mem
      ensures ok == !mem.failed
      ensures ok ==>
              if to < pend then stack == old(stack) + [to] && bufp.canBeNull == old(bufp.canBeNull)
              else stack == old(stack) && bufp.canBeNull
    {
      if to < pend {
        ok := mem.Request();
        if ok {
          stack := stack + [to];
        }
      } else {
        bufp.canBeNull := true;
        ok := true;
      }
    }

    /** The current path is finished: take up the next one. */
    method NextPath()
      requires Valid() && p == pend && |stack| > 0
      modifies this, bufp`canBeNull
      ensures Valid() && Todo() < old(Todo()) && p != pend
    {
      hide WfProgram, Closed, Variant, Covers, Left;
      ScanPop(Buf(), code, x, spot, entry, p, pathCanBeNull, stack, fastmap[..], bufp.canBeNull);
      bufp.canBeNull := bufp.canBeNull || pathCanBeNull;
      pathCanBeNull := true;
      p := stack[|stack| - 1];
      stack := stack[..|stack| - 1];
      spot, entry := AtEntry, p;
    }

    /** Commands that match characters: the path ends here, and it cannot be empty. */
    method Characters() returns (finished: bool)
      requires Valid() && 0 <= p < pend && Expected(Body, buffer[p])
      modifies this, fastmap
      ensures finished ==> Known(Buf(), code, x, fastmap[..], bufp.canBeNull)
      ensures !finished ==> Valid() && Todo() < old(Todo())
    {
      hide WfProgram, Closed, Variant, Covers, Left, Starts, First, Null;
      ghost var before := fastmap[..];
      EntryChars(Buf(), code, x, spot, entry, p, pathCanBeNull, stack, before, bufp.canBeNull);
      ScanOp(Buf(), code, x, spot, entry, p, pathCanBeNull, stack, before, bufp.canBeNull);
      EnterChars(buffer, p, fastmap, code);
      ScanChars(Buf(), code, x, spot, entry, p, pathCanBeNull, stack, before, bufp.canBeNull, fastmap[..]);
      if buffer[p] == ANYCHAR && bufp.canBeNull {
        ScanDone(Buf(), code, x, spot, entry, p, pathCanBeNull, stack, before, bufp.canBeNull);
        return true;
      }
      pathCanBeNull := false;
      p := pend;
      spot, entry := AtEntry, pend;
      return false;
    }

    method Forward()
      requires Valid() && 0 <= p < pend
      requires buffer[p] == START_MEMORY || buffer[p] == STOP_MEMORY || buffer[p] == PUSH_DUMMY_FAILURE
      modifies this
      ensures Valid() && Todo() < old(Todo())
    {
      hide WfProgram, Closed, Variant, Covers, Left;
      EntrySpot(Buf(), code, x, spot, entry, p, pathCanBeNull, stack, fastmap[..], bufp.canBeNull);
      ScanForward(Buf(), code, x, entry, p, pathCanBeNull, stack, fastmap[..], bufp.canBeNull);
      p := if buffer[p] == PUSH_DUMMY_FAILURE then p + 1 else p + 3;
      entry := p;
    }

    /** Jumps: none of them leads back.  The treatment of a jump back to a loop, entered for one that goes nowhere, ends at
        once. */
    method Jump()
      requires Valid() && 0 <= p < pend && (buffer[p] == JUMP_PAST_ALT || buffer[p] == DUMMY_FAILURE_JUMP)
      modifies this
      ensures Valid() && Todo() < old(Todo())
    {
      hide WfProgram, Closed, Variant, Covers, Left, Extract;
      var op := buffer[p];
      EntrySpot(Buf(), code, x, spot, entry, p, pathCanBeNull, stack, fastmap[..], bufp.canBeNull);
      if op == JUMP_PAST_ALT {
        ScanForward(Buf(), code, x, entry, p, pathCanBeNull, stack, fastmap[..], bufp.canBeNull);
      } else {
        ScanPlus(Buf(), code, x, entry, p, pathCanBeNull, stack, fastmap[..], bufp.canBeNull);
      }
      JumpForward(Buf(), code, x, p);
      var j := Number(p + 1);
      p := p + 3 + j;
      if j <= 0 {
        assert buffer[p] != ON_FAILURE_JUMP && buffer[p] != SUCCEED_N;
      }
      spot, entry := if op == JUMP_PAST_ALT then AtEntry else AtChars, if op == JUMP_PAST_ALT then p else p - 3;
    }

    method OnFailure() returns (ok: bool)
      requires Valid() && 0 <= p < pend && buffer[p] == ON_FAILURE_JUMP && !mem.failed
      modifies this, bufp`canBeNull, mem
      ensures ok == !mem.failed
      ensures ok ==> Valid() && Todo() < old(Todo())
    {
      hide WfProgram, Closed, Variant, Covers, Left, Extract, IsLoop;
      EntrySpot(Buf(), code, x, spot, entry, p, pathCanBeNull, stack, fastmap[..], bufp.canBeNull);
      var j := Number(p + 1);
      ok := Remember(p + 3 + j);
      if ok {
        ScanOnFailure(Buf(), code, x, entry, p, pathCanBeNull, old(stack), fastmap[..], old(bufp.canBeNull), stack, bufp.canBeNull);
        spot, entry := if IsLoop(code, p) then AtChars else AtEntry, p + if IsLoop(code, p) then 0 else 3;
        p := p + 3;
      }
    }

    method SucceedN() returns (ok: bool)
      requires Valid() && 0 <= p < pend && buffer[p] == SUCCEED_N && !mem.failed
      modifies this, bufp`canBeNull, mem
      ensures ok == !mem.failed
      ensures ok ==> Valid() && Todo() < old(Todo())
    {
      hide WfProgram, Closed, Variant, Covers, Left, Extract;
      EntrySpot(Buf(), code, x, spot, entry, p, pathCanBeNull, stack, fastmap[..], bufp.canBeNull);
      ok := true;
      var k := Number(p + 3);
      if k == 0 {
        var j := Number(p + 1);
        ok := Remember(p + 3 + j);
      }
      if ok {
        ScanSucceed(Buf(), code, x, spot, entry, p, pathCanBeNull, old(stack), fastmap[..], old(bufp.canBeNull), stack, bufp.canBeNull);
        spot := AtChars;
        p := p + 5;
      }
    }

    method SetNumberAt()
      requires Valid() && 0 <= p < pend && buffer[p] == SET_NUMBER_AT
      modifies this
      ensures Valid() && Todo() < old(Todo())
    {
      hide WfProgram, Closed, Variant, Covers, Left, IsIntervalOne;
      ScanSet(Buf(), code, x, spot, entry, p, pathCanBeNull, stack, fastmap[..], bufp.canBeNull);
      spot := if spot.AtEntry? && !IsIntervalOne(code, entry) then AtSecond else AtCount;
      p := p + 5;
    }

    /** Follow all paths through the pattern up to their first character.  0, or -2 when there is no room. */
    method All() returns (r: int)
      requires Valid() && !mem.failed
      modifies this, bufp`canBeNull, fastmap, mem
      ensures r == if mem.failed then -2 else 0
      ensures r == 0 ==> Known(Buf(), code, x, fastmap[..], bufp.canBeNull)
    {
      hide WfProgram, Closed, Variant, Covers, Left, First, Null;
      while p != pend || |stack| > 0
        invariant Valid() && !mem.failed
        decreases Todo()
      {
        if p == pend {
          NextPath();
        }
        ScanOp(Buf(), code, x, spot, entry, p, pathCanBeNull, stack, fastmap[..], bufp.canBeNull);
        var op, ok := buffer[p], true;
        if op == EXACTN || op == ANYCHAR || op == CHARSET || op == CHARSET_NOT {
          var finished := Characters();
          if finished {
            return 0;
          }
        }
        else if op == START_MEMORY || op == STOP_MEMORY || op == PUSH_DUMMY_FAILURE { Forward(); }
        else if op == JUMP_PAST_ALT || op == DUMMY_FAILURE_JUMP { Jump(); }
        else if op == ON_FAILURE_JUMP { ok := OnFailure(); }
        else if op == SUCCEED_N { ok := SucceedN(); }
        else { SetNumberAt(); }
        if !ok {
          return -2;
        }
      }
      ScanDone(Buf(), code, x, spot, entry, p, pathCanBeNull, stack, fastmap[..], bufp.canBeNull);
      bufp.canBeNull := bufp.canBeNull || pathCanBeNull;
      return 0;
    }
  }

  /** `can_be_null` and the fastmap say what the pattern can start with. */
  ghost predicate Known(buf: seq<byte>, code: seq<byte>, x: set<int>, fm: seq<bool>, canBeNull: bool) {
    && Closed(code, x) && |buf| == |code| && 0 in x + {|code|} && |fm| == 256
    && (canBeNull <==> Null(buf, code, x, 0))
    && (!canBeNull ==> forall c: byte :: fm[c] <==> First(buf, code, x, 0, c))
  }

  /** Compute the fastmap of a compiled pattern.  It is marked accurate even when there is no room to finish it (-2). */
  method ReCompileFastmap(bufp: PatternBuffer, mem: Allocator) returns (r: int)
    requires bufp.Compiled() && bufp.Scannable() && bufp.fastmap != null && bufp.fastmap.Length == 256 && !mem.failed
    modifies bufp`fastmapAccurate, bufp`canBeNull, bufp.fastmap, mem
    ensures bufp.Compiled() && bufp.fastmapAccurate
    ensures r == if mem.failed then -2 else 0
    ensures r == 0 ==> Known(bufp.buffer[..bufp.used], bufp.code, bufp.x, bufp.fastmap[..], bufp.canBeNull)
  {
    hide WfProgram, Closed, Variant, Covers, Known;
    var fastmap := bufp.fastmap;
    for j := 0 to 256
      invariant forall k: byte :: k < j ==> !fastmap[k]
      modifies fastmap
    {
      fastmap[j] := false;
    }
    bufp.fastmapAccurate, bufp.canBeNull := true, false;
    var scan := new Scan(bufp, fastmap, mem);
    r := scan.All();
  }

  lemma EntrySpot(buf: seq<byte>, code: seq<byte>, x: set<int>, spot: Spot, entry: int, p: int, path: bool, stack: seq<int>,
                  fm: seq<bool>, canBeNull: bool)
    requires Covers(buf, code, x, spot, entry, p, path, stack, fm, canBeNull) && Variant(buf, code, x)
    requires 0 <= p < |buf|
    ensures |buf| == |code| && Closed(code, x)
    ensures !Expected(Body, buf[p]) && buf[p] != SET_NUMBER_AT && buf[p] != SUCCEED_N ==> spot.AtEntry? && entry == p && p in x
    ensures buf[p] == DUMMY_FAILURE_JUMP || buf[p] == ON_FAILURE_JUMP || buf[p] == JUMP_PAST_ALT ==> p + 3 <= |buf|
    ensures buf[p] == SUCCEED_N ==> spot.AtCount? && p + 5 <= |buf|
  {
    hide Closed, Variant, First, Null, Work, Extract, FirstOf, NullOf, WorkOf, PointsOk, Starts, CharCommand;
    ScanOp(buf, code, x, spot, entry, p, path, stack, fm, canBeNull);
    if spot.AtCount? {
      IntervalReads(buf, code, x, entry);
    }
    if spot.AtEntry? {
      OpLenPositive(code, p);
    }
  }

  lemma EntryChars(buf: seq<byte>, code: seq<byte>, x: set<int>, spot: Spot, entry: int, p: int, path: bool, stack: seq<int>,
                   fm: seq<bool>, canBeNull: bool)
    requires Covers(buf, code, x, spot, entry, p, path, stack, fm, canBeNull) && Variant(buf, code, x) && p != |code|
    requires 0 <= p < |buf| && Expected(Body, buf[p])
    ensures CharCommand(code, p)
  {
    hide Closed, Variant, First, Null, Work, Extract, FirstOf, NullOf, WorkOf, PointsOk, Starts, OpLen;
    ScanOp(buf, code, x, spot, entry, p, path, stack, fm, canBeNull);
    if spot.AtEntry? {
      OpLenPositive(code, p);
      FirstChars(buf, code, x, p);
    }
  }
}
