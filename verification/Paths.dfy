/** How the leaves of the search go on from one command to the next. */
module Paths {
  import opened Bytes
  import opened Machine
  import opened WellFormed
  import opened Traces

  /** `p` is a place of the program or its end, `d` one in the text. */
  ghost predicate Standing(code: seq<byte>, x: set<int>, t: seq<byte>, p: int, d: int) {
    Closed(code, x) && p in x + {|code|} && 0 <= d <= |t|
  }

  /** The leaves from `p` at `d`. */
  ghost function Leaves(code: seq<byte>, x: set<int>, t: seq<byte>, p: int, d: int): (r: seq<Leaf>)
    requires Standing(code, x, t, p, d)
    ensures |r| > 0
  {
    Trace(code, x, t, p, d)
  }

  /** A command that takes `n` characters goes on at `next` behind them or gives up. */
  ghost predicate GoesOn(code: seq<byte>, x: set<int>, t: seq<byte>, p: int, d: int, next: int, n: nat, takes: bool)
    requires Standing(code, x, t, p, d)
  {
    if takes then Standing(code, x, t, next, d + n) && Leaves(code, x, t, p, d) == Leaves(code, x, t, next, d + n)
    else Leaves(code, x, t, p, d) == [Dead]
  }

  ghost predicate Continues(code: seq<byte>, x: set<int>, t: seq<byte>, p: int, d: int, next: int, tail: seq<Leaf>)
    requires Standing(code, x, t, p, d)
  {
    Standing(code, x, t, next, d) && Leaves(code, x, t, p, d) == Leaves(code, x, t, next, d) + tail
  }

  ghost predicate Chooses(code: seq<byte>, x: set<int>, t: seq<byte>, p: int, d: int, first: int, second: int)
    requires Standing(code, x, t, p, d)
  {
    && Standing(code, x, t, first, d) && Standing(code, x, t, second, d)
    && Leaves(code, x, t, p, d) == Leaves(code, x, t, first, d) + Leaves(code, x, t, second, d)
  }

  lemma LeavesEnd(code: seq<byte>, x: set<int>, t: seq<byte>, d: int)
    requires Standing(code, x, t, |code|, d)
    ensures Leaves(code, x, t, |code|, d) == [End(d)]
  {
    hide Closed;
  }

  lemma InProgram(code: seq<byte>, p: int)
    requires Fits(code, p)
    ensures 0 <= p < |code|
  {}

  lemma LeavesMatch(code: seq<byte>, x: set<int>, t: seq<byte>, p: int, d: int, n: nat, next: int)
    requires Standing(code, x, t, p, d) && p in x && Fits(code, p) && Decode(code, p) == Match(n, next)
    ensures 0 <= p && p + 2 + n <= |code| && GoesOn(code, x, t, p, d, next, n, WordAt(code, p, t, d, n))
  {
    hide Closed, Decode, IsLoop, IsInterval, Takes, Extract, OneChar, BodyTrace, CountTrace, Pops, Shape, WordAt;
    DecodeLeads(code, x, p);
    InProgram(code, p);
    MatchFits(code, p, n);
    WordInside(code, p, t, d, n);
  }

  lemma WordInside(code: seq<byte>, p: int, t: seq<byte>, d: int, n: nat)
    requires 0 <= p && p + 2 + n <= |code| && 0 <= d
    ensures WordAt(code, p, t, d, n) ==> d + n <= |t|
  {}

  lemma MatchFits(code: seq<byte>, p: int, n: nat)
    requires Fits(code, p) && Decode(code, p).Match? && Decode(code, p).n == n
    ensures 0 <= p && p + 2 + n <= |code|
  {
    hide IsLoop, IsInterval;
  }

  lemma LeavesTake(code: seq<byte>, x: set<int>, t: seq<byte>, p: int, d: int, next: int)
    requires Standing(code, x, t, p, d) && p in x && Fits(code, p) && Decode(code, p) == Take(next)
    ensures OneChar(code, p) && GoesOn(code, x, t, p, d, next, 1, TakesAt(code, p, t, d))
  {
    hide Closed, Decode, IsLoop, IsInterval, Takes, Extract, OneChar, BodyTrace, CountTrace, Pops;
    DecodeLeads(code, x, p);
    InProgram(code, p);
  }

  lemma LeavesSkip(code: seq<byte>, x: set<int>, t: seq<byte>, p: int, d: int, next: int)
    requires Standing(code, x, t, p, d) && p in x && Fits(code, p) && (Decode(code, p) == Skip(next) || Decode(code, p) == Goto(next))
    ensures Continues(code, x, t, p, d, next, [])
  {
    hide Closed, Decode, IsLoop, IsInterval, Takes, Extract, OneChar, BodyTrace, CountTrace, Pops, Shape;
    DecodeLeads(code, x, p);
    InProgram(code, p);
  }

  lemma LeavesDummy(code: seq<byte>, x: set<int>, t: seq<byte>, p: int, d: int, next: int)
    requires Standing(code, x, t, p, d) && p in x && Fits(code, p) && Decode(code, p) == Dummy(next)
    ensures Continues(code, x, t, p, d, next, [Dead])
  {
    hide Closed, Decode, IsLoop, IsInterval, Takes, Extract, OneChar, BodyTrace, CountTrace, Pops, Shape;
    DecodeLeads(code, x, p);
    InProgram(code, p);
  }

  lemma LeavesChoice(code: seq<byte>, x: set<int>, t: seq<byte>, p: int, d: int, first: int, second: int)
    requires Standing(code, x, t, p, d) && p in x && Fits(code, p) && Decode(code, p) == Choice(first, second)
    ensures Chooses(code, x, t, p, d, first, second)
  {
    hide Closed, Decode, IsLoop, IsInterval, Takes, Extract, OneChar, BodyTrace, CountTrace, Pops, Shape;
    DecodeLeads(code, x, p);
    InProgram(code, p);
  }

  // ---- loops and intervals ----

  lemma LoopFacts(code: seq<byte>, x: set<int>, t: seq<byte>, q: int, d: int)
    requires Standing(code, x, t, q, d) && q in x && IsLoop(code, q)
    ensures 0 <= q < |code| && OneChar(code, q + 3) && q + 3 < LoopEnd(code, q) + 3
    ensures Standing(code, x, t, LoopEnd(code, q) + 3, d) && Fits(code, q) && Decode(code, q) == Loop(LoopEnd(code, q) + 3)
    ensures TakesAt(code, q + 3, t, d) ==> Standing(code, x, t, q, d + 1)
  {
    LoopNext(code, x, q);
  }

  /** At the on_failure_jump of a loop. */
  ghost predicate LoopGoes(code: seq<byte>, x: set<int>, t: seq<byte>, q: int, d: int)
    requires Standing(code, x, t, q, d) && IsLoop(code, q)
  {
    var exit := LoopEnd(code, q) + 3;
    && OneChar(code, q + 3) && Standing(code, x, t, exit, d)
    && if TakesAt(code, q + 3, t, d) then
         && Standing(code, x, t, q, d + 1)
         && Leaves(code, x, t, q, d) == Leaves(code, x, t, q, d + 1) + if Pops(code, q) then [] else Leaves(code, x, t, exit, d)
       else Leaves(code, x, t, q, d) == [Dead] + Leaves(code, x, t, exit, d)
  }

  lemma LeavesLoop(code: seq<byte>, x: set<int>, t: seq<byte>, q: int, d: int)
    requires Standing(code, x, t, q, d) && q in x && IsLoop(code, q)
    ensures LoopGoes(code, x, t, q, d)
  {
    hide Closed, Decode, IsLoop, IsInterval, Takes, TakesAt, Extract, OneChar, CountTrace, Pops, LoopEnd, Fits, WordAt;
    LoopFacts(code, x, t, q, d);
    assert Leaves(code, x, t, q, d) == BodyTrace(code, x, t, q, d, Leaves(code, x, t, LoopEnd(code, q) + 3, d));
  }

  /** At the dummy_failure_jump in front of the loop at `q`. */
  ghost predicate PlusGoes(code: seq<byte>, x: set<int>, t: seq<byte>, p: int, q: int, d: int)
    requires Standing(code, x, t, p, d) && IsLoop(code, q)
  {
    && OneChar(code, q + 3)
    && if TakesAt(code, q + 3, t, d) then
         && Standing(code, x, t, q, d + 1)
         && Leaves(code, x, t, p, d) == Leaves(code, x, t, q, d + 1) + if Pops(code, q) then [] else [Dead]
       else Leaves(code, x, t, p, d) == [Dead] + [Dead]
  }

  lemma LeavesPlus(code: seq<byte>, x: set<int>, t: seq<byte>, p: int, d: int)
    requires Standing(code, x, t, p, d) && p in x && Fits(code, p) && Decode(code, p).PlusLoop?
    ensures IsLoop(code, p + 3) && p + 3 in x && PlusGoes(code, x, t, p, p + 3, d)
  {
    hide Closed, Decode, IsLoop, IsInterval, Takes, TakesAt, Extract, OneChar, CountTrace, Pops, LoopEnd, Fits, WordAt;
    PlusFacts(code, x, t, p, d);
    LoopFacts(code, x, t, p + 3, d);
    assert Leaves(code, x, t, p, d) == BodyTrace(code, x, t, p + 3, d, [Dead]);
  }

  lemma PlusFacts(code: seq<byte>, x: set<int>, t: seq<byte>, p: int, d: int)
    requires Standing(code, x, t, p, d) && p in x && Fits(code, p) && Decode(code, p).PlusLoop?
    ensures 0 <= p < |code| && IsLoop(code, p + 3) && p + 3 in x && Standing(code, x, t, p + 3, d)
  {
    hide IsLoop, IsInterval, Closed;
    DecodeLeads(code, x, p);
  }

  ghost predicate AtCount(code: seq<byte>, x: set<int>, t: seq<byte>, p: int, d: int, k: nat) {
    Standing(code, x, t, p, d) && p in x && Fits(code, p) && Decode(code, p).Count? && IsInterval(code, p) && k <= IntervalUpper(code, p)
  }

  /** The leaves at the interval at `p` after `k` characters. */
  ghost function CountLeaves(code: seq<byte>, x: set<int>, t: seq<byte>, p: int, d: int, k: nat): (r: seq<Leaf>)
    requires AtCount(code, x, t, p, d, k)
    ensures |r| > 0
  {
    CountTrace(code, x, t, p, d, k)
  }

  ghost predicate CountGoes(code: seq<byte>, x: set<int>, t: seq<byte>, p: int, d: int, k: nat)
    requires AtCount(code, x, t, p, d, k)
  {
    var exit := IntervalExit(code, p);
    && Standing(code, x, t, exit, d)
    && if k == IntervalUpper(code, p) then CountLeaves(code, x, t, p, d, k) == Leaves(code, x, t, exit, d)
       else
         var takes := TakesAt(code, IntervalBody(code, p), t, d);
         && (takes ==> AtCount(code, x, t, p, d + 1, k + 1))
         && var more := if takes then CountLeaves(code, x, t, p, d + 1, k + 1) else [Dead];
            CountLeaves(code, x, t, p, d, k) == if k < IntervalLower(code, p) then more else more + Leaves(code, x, t, exit, d)
  }

  lemma CountFacts(code: seq<byte>, x: set<int>, t: seq<byte>, p: int, d: int, k: nat)
    requires AtCount(code, x, t, p, d, k)
    ensures IsInterval(code, p) && Fits(code, p) && Decode(code, p).Count?
    ensures Standing(code, x, t, IntervalExit(code, p), d) && 0 <= p < IntervalExit(code, p) <= |code| && p < |code|
    ensures k <= IntervalUpper(code, p) && IntervalExit(code, p) == Decode(code, p).exit
    ensures 0 <= d <= |t|
    ensures k < IntervalUpper(code, p) && TakesAt(code, IntervalBody(code, p), t, d) ==> AtCount(code, x, t, p, d + 1, k + 1)
  {
    hide IsInterval, IsLoop, Closed, IntervalBody, IntervalUpper;
    DecodeLeads(code, x, p);
  }

  lemma LeavesCounting(code: seq<byte>, x: set<int>, t: seq<byte>, p: int, d: int, k: nat)
    requires AtCount(code, x, t, p, d, k)
    ensures CountGoes(code, x, t, p, d, k)
  {
    hide Closed, Decode, IsLoop, IsInterval, Takes, TakesAt, Extract, OneChar, Trace, BodyTrace, IntervalExit, IntervalBody,
      IntervalUpper, IntervalLower, Fits;
    CountFacts(code, x, t, p, d, k);
  }

  lemma LeavesCount(code: seq<byte>, x: set<int>, t: seq<byte>, p: int, d: int)
    requires Standing(code, x, t, p, d) && p in x && Fits(code, p) && Decode(code, p).Count?
    ensures AtCount(code, x, t, p, d, 0) && Leaves(code, x, t, p, d) == CountLeaves(code, x, t, p, d, 0)
  {
    hide Closed, Decode, IsLoop, IsInterval, Takes, Extract, OneChar, CountTrace, BodyTrace, Pops, Fits, IntervalUpper, WordAt;
    DecodeLeads(code, x, p);
    InProgram(code, p);
  }

  // ---- the leaves do not depend on the other entry points ----

  lemma Next(code: seq<byte>, x: set<int>, t: seq<byte>, p: int, d: int)
    requires Standing(code, x, t, p, d) && p != |code|
    ensures 0 <= d <= |t| && p in x && 0 <= p < |code| && Fits(code, p) && Leads(Decode(code, p), p, x, |code|)
  {
    hide Decode, WfAt, IsLoop, IsInterval;
    DecodeLeads(code, x, p);
    InProgram(code, p);
  }

  /** Where commands stand in both sets, their leaves are the same. */
  ghost predicate Agree(code: seq<byte>, x: set<int>, z: set<int>, t: seq<byte>, p: int, d: int)
  {
    Standing(code, x, t, p, d) && Standing(code, z, t, p, d) && Leaves(code, x, t, p, d) == Leaves(code, z, t, p, d)
  }

  lemma {:induction false} LeavesSame(code: seq<byte>, x: set<int>, z: set<int>, t: seq<byte>, p: int, d: int)
    requires Standing(code, x, t, p, d) && Standing(code, z, t, p, d)
    ensures Agree(code, x, z, t, p, d)
    decreases |t| - d, |code| - p, 1
  {
    hide Standing, Decode, Fits, Leaves, IsLoop, IsInterval, OneChar, TakesAt, Pops, LoopEnd, OpLen;
    if p == |code| {
      LeavesEnd(code, x, t, d);
      LeavesEnd(code, z, t, d);
    } else {
      Next(code, x, t, p, d);
      Next(code, z, t, p, d);
      match Decode(code, p)
      case Match(n, next) =>
        LeavesMatch(code, x, t, p, d, n, next);
        LeavesMatch(code, z, t, p, d, n, next);
        WordInside(code, p, t, d, n);
        if WordAt(code, p, t, d, n) {
          LeavesSame(code, x, z, t, next, d + n);
        }
      case Take(next) =>
        LeavesTake(code, x, t, p, d, next);
        LeavesTake(code, z, t, p, d, next);
        CharInside(code, p, t, d);
        if TakesAt(code, p, t, d) {
          LeavesSame(code, x, z, t, next, d + 1);
        }
      case Skip(next) =>
        LeavesSkip(code, x, t, p, d, next);
        LeavesSkip(code, z, t, p, d, next);
        LeavesSame(code, x, z, t, next, d);
      case Goto(next) =>
        LeavesSkip(code, x, t, p, d, next);
        LeavesSkip(code, z, t, p, d, next);
        LeavesSame(code, x, z, t, next, d);
      case Dummy(next) =>
        LeavesDummy(code, x, t, p, d, next);
        LeavesDummy(code, z, t, p, d, next);
        LeavesSame(code, x, z, t, next, d);
      case Choice(first, second) =>
        LeavesChoice(code, x, t, p, d, first, second);
        LeavesChoice(code, z, t, p, d, first, second);
        LeavesSame(code, x, z, t, first, d);
        LeavesSame(code, x, z, t, second, d);
      case Loop(_) => LoopSame(code, x, z, t, p, d);
      case PlusLoop(_) => PlusSame(code, x, z, t, p, d);
      case Count(_) =>
        LeavesCount(code, x, t, p, d);
        LeavesCount(code, z, t, p, d);
        CountSame(code, x, z, t, p, d, 0);
    }
  }

  lemma CharInside(code: seq<byte>, p: int, t: seq<byte>, d: int)
    requires OneChar(code, p)
    ensures TakesAt(code, p, t, d) ==> 0 <= d < |t|
  {}

  lemma IsALoop(code: seq<byte>, x: set<int>, t: seq<byte>, q: int, d: int)
    requires Standing(code, x, t, q, d) && q in x && Fits(code, q) && Decode(code, q).Loop?
    ensures IsLoop(code, q) && Decode(code, q).exit == LoopEnd(code, q) + 3
  {
    hide IsLoop, LoopEnd, Closed;
    DecodeLeads(code, x, q);
  }

  lemma {:induction false} LoopSame(code: seq<byte>, x: set<int>, z: set<int>, t: seq<byte>, q: int, d: int)
    requires Standing(code, x, t, q, d) && Standing(code, z, t, q, d) && q in x && q in z && Fits(code, q) && Decode(code, q).Loop?
    ensures Agree(code, x, z, t, q, d)
    decreases |t| - d, |code| - q, 0
  {
    hide Standing, Decode, Fits, Leaves, IsLoop, OneChar, TakesAt, Pops, LoopEnd;
    IsALoop(code, x, t, q, d);
    LoopFacts(code, x, t, q, d);
    LoopFacts(code, z, t, q, d);
    LeavesLoop(code, x, t, q, d);
    LeavesLoop(code, z, t, q, d);
    LeavesSame(code, x, z, t, LoopEnd(code, q) + 3, d);
    CharInside(code, q + 3, t, d);
    if TakesAt(code, q + 3, t, d) {
      LeavesSame(code, x, z, t, q, d + 1);
    }
  }

  lemma {:induction false} PlusSame(code: seq<byte>, x: set<int>, z: set<int>, t: seq<byte>, p: int, d: int)
    requires Standing(code, x, t, p, d) && Standing(code, z, t, p, d) && p in x && p in z && Fits(code, p) && Decode(code, p).PlusLoop?
    ensures Agree(code, x, z, t, p, d)
    decreases |t| - d, |code| - p, 0
  {
    hide Standing, Decode, Fits, Leaves, IsLoop, OneChar, TakesAt, Pops, LoopEnd;
    LeavesPlus(code, x, t, p, d);
    LeavesPlus(code, z, t, p, d);
    CharInside(code, p + 6, t, d);
    if TakesAt(code, p + 6, t, d) {
      LeavesSame(code, x, z, t, p + 3, d + 1);
    }
  }

  lemma {:induction false} CountSame(code: seq<byte>, x: set<int>, z: set<int>, t: seq<byte>, p: int, d: int, k: nat)
    requires AtCount(code, x, t, p, d, k) && AtCount(code, z, t, p, d, k)
    ensures CountLeaves(code, x, t, p, d, k) == CountLeaves(code, z, t, p, d, k)
    decreases |t| - d, |code| - p, 0
  {
    hide Standing, AtCount, Decode, Fits, Leaves, IsInterval, TakesAt, IntervalExit, IntervalBody, IntervalUpper, IntervalLower, CountLeaves;
    CountFacts(code, x, t, p, d, k);
    CountFacts(code, z, t, p, d, k);
    LeavesCounting(code, x, t, p, d, k);
    LeavesCounting(code, z, t, p, d, k);
    LeavesSame(code, x, z, t, IntervalExit(code, p), d);
    CharInside(code, IntervalBody(code, p), t, d);
    if k < IntervalUpper(code, p) && TakesAt(code, IntervalBody(code, p), t, d) {
      CountSame(code, x, z, t, p, d + 1, k + 1);
    }
  }
}
