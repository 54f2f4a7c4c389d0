/** The characters a match can begin with, read off the program. */
module FastmapSpec {
  import opened Bytes
  import opened Opcodes
  import opened Machine
  import opened WellFormed
  import opened Traces
  import opened MatchSpec
  import opened IntervalSteps

  /** A command that matches characters lies at `p`. */
  predicate CharCommand(code: seq<byte>, p: int) {
    Fits(code, p) && (if code[p] == EXACTN then code[p + 1] > 0 else OneChar(code, p))
  }

  /** Characters entered into the fastmap for a command that matches characters. */
  predicate Starts(code: seq<byte>, p: int, c: byte)
    requires CharCommand(code, p)
  {
    code[p] == ANYCHAR || (if code[p] == EXACTN then code[p + 2] == c else Takes(code, p, c))
  }

  /** The exit of an interval counts when its succeed_n holds a 0 at present. */
  predicate MaySkip(buf: seq<byte>, code: seq<byte>, p: int)
    requires IsInterval(code, p) && |buf| == |code|
  {
    SuccCount(buf, code, p) == 0
  }

  ghost predicate First(buf: seq<byte>, code: seq<byte>, x: set<int>, p: int, c: byte)
    requires Closed(code, x) && |buf| == |code| && p in x + {|code|}
    decreases |code| - p
  {
    p != |code| &&
    hide Closed, Decode, Extract, IsLoop, IsInterval, Takes;
    DecodeLeads(code, x, p);
    StartsOk(code, x, p);
    match Decode(code, p)
    case Match(_, _) => Starts(code, p, c)
    case Take(_) => Starts(code, p, c)
    case Skip(next) => First(buf, code, x, next, c)
    case Dummy(next) => First(buf, code, x, next, c)
    case Goto(target) => First(buf, code, x, target, c)
    case Choice(first, second) => First(buf, code, x, first, c) || First(buf, code, x, second, c)
    case Loop(exit) => Starts(code, p + 3, c) || First(buf, code, x, exit, c)
    case PlusLoop(_) => Starts(code, p + 6, c)
    case Count(exit) => Starts(code, IntervalBody(code, p), c) || (MaySkip(buf, code, p) && First(buf, code, x, exit, c))
  }

  /** The empty string may match from here. */
  ghost predicate Null(buf: seq<byte>, code: seq<byte>, x: set<int>, p: int)
    requires Closed(code, x) && |buf| == |code| && p in x + {|code|}
    decreases |code| - p
  {
    p == |code| ||
    hide Closed, Decode, Extract, IsLoop, IsInterval, Takes;
    DecodeLeads(code, x, p);
    match Decode(code, p)
    case Match(_, _) => false
    case Take(_) => false
    case Skip(next) => Null(buf, code, x, next)
    case Dummy(next) => Null(buf, code, x, next)
    case Goto(target) => Null(buf, code, x, target)
    case Choice(first, second) => Null(buf, code, x, first) || Null(buf, code, x, second)
    case Loop(exit) => Null(buf, code, x, exit)
    case PlusLoop(_) => false
    case Count(exit) => MaySkip(buf, code, p) && Null(buf, code, x, exit)
  }

  lemma BodyStarts(code: seq<byte>, b: int)
    requires OneChar(code, b)
    ensures CharCommand(code, b)
  {}

  lemma StartsOk(code: seq<byte>, x: set<int>, p: int)
    requires Closed(code, x) && p in x
    ensures Fits(code, p)
    ensures match Decode(code, p)
            case Match(_, _) => CharCommand(code, p)
            case Take(_) => CharCommand(code, p)
            case Loop(_) => IsLoop(code, p) && CharCommand(code, p + 3)
            case PlusLoop(_) => CharCommand(code, p + 6)
            case Count(_) => IsInterval(code, p) && CharCommand(code, IntervalBody(code, p))
            case _ => true
  {
    hide Closed, Decode, Extract, OpLen, IsIntervalOne, IsIntervalMany;
    DecodeLeads(code, x, p);
  }

  // ---- no match is overlooked ----

  /** A run from `d` to `e` begins with a character of the set, or it is empty and may be. */
  ghost predicate Foreseen(buf: seq<byte>, code: seq<byte>, x: set<int>, t: seq<byte>, p: int, d: int, e: int)
    requires Closed(code, x) && |buf| == |code| && p in x + {|code|}
  {
    if d == e then Null(buf, code, x, p) else 0 <= d < |t| && First(buf, code, x, p, t[d])
  }

  lemma {:induction false} FirstSound(buf: seq<byte>, code: seq<byte>, x: set<int>, t: seq<byte>, p: int, d: int, e: int)
    requires Closed(code, x) && Variant(buf, code, x) && |buf| == |code| && p in x + {|code|}
    requires Accepts(code, t, Thread(p, d), e)
    ensures Foreseen(buf, code, x, t, p, d, e)
    decreases |code| - p
  {
    hide Closed, Variant, Accepts, Decode, Extract, IsLoop, IsInterval, Takes, OneChar, Starts, MaySkip;
    AcceptsBounds(code, t, Thread(p, d), e);
    if p == |code| {
      AcceptsAtEnd(code, t, d, e);
      return;
    }
    DecodeLeads(code, x, p);
    StartsOk(code, x, p);
    match Decode(code, p)
    case Match(_, _) => CharForeseen(code, t, p, d, e);
    case Take(_) => CharForeseen(code, t, p, d, e);
    case Skip(next) =>
      AcceptsSkip(code, t, p, d, e);
      FirstSound(buf, code, x, t, next, d, e);
    case Dummy(next) =>
      AcceptsSkip(code, t, p, d, e);
      FirstSound(buf, code, x, t, next, d, e);
    case Goto(target) =>
      AcceptsJump(code, t, p, d, e);
      FirstSound(buf, code, x, t, target, d, e);
    case Choice(first, second) =>
      AcceptsChoice(code, t, p, d, e);
      if Accepts(code, t, Thread(first, d), e) {
        FirstSound(buf, code, x, t, first, d, e);
      } else {
        FirstSound(buf, code, x, t, second, d, e);
      }
    case Loop(exit) =>
      LoopMoves(code, t, p, d, e);
      if Accepts(code, t, Thread(exit, d), e) {
        FirstSound(buf, code, x, t, exit, d, e);
      } else {
        CharForeseen(code, t, p + 3, d, e);
      }
    case PlusLoop(_) =>
      AcceptsJump(code, t, p, d, e);
      CharForeseen(code, t, p + 6, d, e);
    case Count(exit) =>
      AcceptsInterval(code, t, p, d, e);
      var k: nat :| CountTo(code, t, p, d, k, e);
      CountForeseen(buf, code, x, t, p, d, k, e);
      if k == 0 {
        FirstSound(buf, code, x, t, exit, d, e);
      }
  }

  lemma CharForeseen(code: seq<byte>, t: seq<byte>, p: int, d: int, e: int)
    requires CharCommand(code, p) && 0 <= d <= |t|
    requires Accepts(code, t, Thread(p, d), e)
    ensures d < e && d < |t| && Starts(code, p, t[d])
  {
    hide Accepts, Takes;
    if code[p] == EXACTN {
      AcceptsExactn(code, t, p, d, e);
      ExactFirst(code, t, p, d, e);
      AcceptsBounds(code, t, Thread(p + 2 + code[p + 1], d + code[p + 1]), e);
    } else {
      AcceptsOneChar(code, t, p, d, e);
      AcceptsBounds(code, t, Thread(p + OpLen(code, p), d + 1), e);
    }
  }

  lemma CountForeseen(buf: seq<byte>, code: seq<byte>, x: set<int>, t: seq<byte>, p: int, d: int, k: nat, e: int)
    requires Closed(code, x) && Variant(buf, code, x) && |buf| == |code| && AtInterval(code, x, p) && 0 <= d <= |t|
    requires CountTo(code, t, p, d, k, e)
    ensures CharCommand(code, IntervalBody(code, p))
    ensures k == 0 ==> MaySkip(buf, code, p) && Accepts(code, t, Thread(IntervalExit(code, p), d), e)
    ensures k > 0 ==> d < e && d < |t| && Starts(code, IntervalBody(code, p), t[d])
  {
    hide Closed, BytesOk, Accepts, Extract, IsIntervalOne, IsIntervalMany, IntervalExit, IntervalLower, CountPos;
    CountOf(buf, code, x, p);
    AcceptsBounds(code, t, Thread(IntervalExit(code, p), d + k), e);
    BodyStarts(code, IntervalBody(code, p));
    if k > 0 {
      assert Takes(code, IntervalBody(code, p), t[d]);
    }
  }

  /** For a program whose counters are as compiled the empty match is foreseen only where there is one. */
  lemma {:induction false} NullRight(code: seq<byte>, x: set<int>, t: seq<byte>, p: int, d: int)
    requires Closed(code, x) && p in x + {|code|} && 0 <= d <= |t| && Null(code, code, x, p)
    ensures Accepts(code, t, Thread(p, d), d)
    decreases |code| - p
  {
    hide Closed, Accepts, Decode, Extract, IsLoop, IsInterval, Takes, OneChar, MaySkip;
    if p == |code| {
      AcceptsAtEnd(code, t, d, d);
      return;
    }
    DecodeLeads(code, x, p);
    match Decode(code, p)
    case Skip(next) =>
      AcceptsSkip(code, t, p, d, d);
      NullRight(code, x, t, next, d);
    case Dummy(next) =>
      AcceptsSkip(code, t, p, d, d);
      NullRight(code, x, t, next, d);
    case Goto(target) =>
      AcceptsJump(code, t, p, d, d);
      NullRight(code, x, t, target, d);
    case Choice(first, second) =>
      AcceptsChoice(code, t, p, d, d);
      if Null(code, code, x, first) {
        NullRight(code, x, t, first, d);
      } else {
        NullRight(code, x, t, second, d);
      }
    case Loop(exit) =>
      LoopMoves(code, t, p, d, d);
      NullRight(code, x, t, exit, d);
    case Count(exit) =>
      NullRight(code, x, t, exit, d);
      CountNone(code, t, p, d);
      AcceptsInterval(code, t, p, d, d);
  }

  lemma CountNone(code: seq<byte>, t: seq<byte>, p: int, d: int)
    requires IsInterval(code, p) && MaySkip(code, code, p) && 0 <= d <= |t|
    requires Accepts(code, t, Thread(IntervalExit(code, p), d), d)
    ensures CountTo(code, t, p, d, 0, d)
  {
    hide Accepts, Extract, OneChar, Takes, IntervalExit, IntervalBody;
  }
}
