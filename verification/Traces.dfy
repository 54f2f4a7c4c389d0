/** What the backtracking matcher explores: the leaves of its search in the order it meets them. */
module Traces {
  import opened Bytes
  import opened Opcodes
  import opened Machine
  import opened WellFormed

  /** A search path ends at the end of the pattern with the cursor at `e`, or it is given up.
      A dummy failure point counts as a path that is given up at once. */
  datatype Leaf = End(e: int) | Dead

  // ---- the decision a maybe_pop_jump takes once and for all ----

  /** Skip over open-group and close-group commands. */
  function SkipMemory(code: seq<byte>, p: int): (r: int)
    requires 0 <= p <= |code|
    ensures p <= r <= |code|
    decreases |code| - p
  {
    if p + 2 < |code| && (code[p] == STOP_MEMORY || code[p] == START_MEMORY) then SkipMemory(code, p + 3) else p
  }

  /** The test against the first character `c` of what follows the loop.  The comparison with the size
      of the bitmap is made after a cast to unsigned char. */
  predicate ExactPops(code: seq<byte>, q: int, c: byte)
    requires IsLoop(code, q)
  {
    if code[q + 3] == EXACTN then code[q + 5] != c
    else if code[q + 3] == CHARSET || code[q + 3] == CHARSET_NOT then
      var hit := c < (code[q + 4] as int * 8) % 256 && InMap(code, q + 3, c);
      hit == (code[q + 3] == CHARSET_NOT)
    else false
  }

  /** Where the pattern goes on behind the loop. */
  function After(code: seq<byte>, q: int): (r: int)
    requires IsLoop(code, q)
    ensures 0 <= r <= |code|
  {
    SkipMemory(code, LoopEnd(code, q) + 3)
  }

  predicate FollowedBy(code: seq<byte>, q: int, c: byte)
    requires IsLoop(code, q)
  {
    var p := After(code, q);
    p + 2 < |code| && code[p] == EXACTN && code[p + 2] == c
  }

  /** The loop at `q` becomes one that throws its failure points away. */
  predicate Pops(code: seq<byte>, q: int)
    requires IsLoop(code, q)
  {
    var p := After(code, q);
    p == |code| || (p + 2 < |code| && code[p] == EXACTN && ExactPops(code, q, code[p + 2]))
  }

  /** Throwing failure points away is harmless: what follows cannot begin with what the body takes. */
  ghost predicate TestRight(code: seq<byte>, q: int)
    requires IsLoop(code, q)
  {
    forall c: byte :: FollowedBy(code, q, c) && ExactPops(code, q, c) ==> !Takes(code, q + 3, c)
  }

  /** The loop test errs exactly for a `charset` whose bitmap has all 32 bytes, so that its size in bits
      becomes 0 in the cast, when the bitmap has the next character. */
  lemma TestWrongIff(code: seq<byte>, q: int, c: byte)
    requires IsLoop(code, q)
    ensures (ExactPops(code, q, c) && Takes(code, q + 3, c)) <==>
            (code[q + 3] == CHARSET && code[q + 4] == 32 && InMap(code, q + 3, c))
  {
    if code[q + 3] == CHARSET || code[q + 3] == CHARSET_NOT {
      var n := code[q + 4] as int;
      assert n < 32 ==> (n * 8) % 256 == n * 8;
    }
  }

  /** Otherwise the loop throws its failure points away for just the characters its body does not take; a body that takes
      any character never does, and a bitmap of 32 bytes counts as empty. */
  lemma TestPopsIff(code: seq<byte>, q: int, c: byte)
    requires IsLoop(code, q)
    ensures ExactPops(code, q, c) <==>
            && code[q + 3] != ANYCHAR
            && if code[q + 3] != EXACTN && code[q + 4] == 32 then code[q + 3] == CHARSET else !Takes(code, q + 3, c)
  {
    if code[q + 3] == CHARSET || code[q + 3] == CHARSET_NOT {
      var n := code[q + 4] as int;
      assert n < 32 ==> (n * 8) % 256 == n * 8;
    }
  }

  // ---- the leaves ----

  /** The `n` characters at `d` are those of the exactn at `p`. */
  predicate WordAt(code: seq<byte>, p: int, t: seq<byte>, d: int, n: nat)
    requires 0 <= p && p + 2 + n <= |code| && 0 <= d
  {
    d + n <= |t| && t[d..d + n] == code[p + 2..p + 2 + n]
  }

  ghost function Trace(code: seq<byte>, x: set<int>, t: seq<byte>, p: int, d: int): (r: seq<Leaf>)
    requires Closed(code, x) && p in x + {|code|} && 0 <= d <= |t|
    ensures |r| > 0
    decreases |t| - d, |code| - p, 1
  {
    hide Closed, Decode, IsLoop, IsInterval, Takes, Pops, Extract, OneChar;
    if p == |code| then [End(d)]
    else
      DecodeLeads(code, x, p);
      match Decode(code, p)
      case Match(n, next) =>
        if WordAt(code, p, t, d, n) then Trace(code, x, t, next, d + n) else [Dead]
      case Take(next) => if TakesAt(code, p, t, d) then Trace(code, x, t, next, d + 1) else [Dead]
      case Skip(next) => Trace(code, x, t, next, d)
      case Dummy(next) => Trace(code, x, t, next, d) + [Dead]
      case Goto(target) => Trace(code, x, t, target, d)
      case Choice(first, second) => Trace(code, x, t, first, d) + Trace(code, x, t, second, d)
      case Loop(exit) => BodyTrace(code, x, t, p, d, Trace(code, x, t, exit, d))
      case PlusLoop(_) => BodyTrace(code, x, t, p + 3, d, [Dead])
      case Count(_) => CountTrace(code, x, t, p, d, 0)
  }

  /** At the body of a loop, with the failure point that leads to the leaves `other` on top of the stack. */
  ghost function BodyTrace(code: seq<byte>, x: set<int>, t: seq<byte>, q: int, d: int, other: seq<Leaf>): (r: seq<Leaf>)
    requires Closed(code, x) && q in x && IsLoop(code, q) && 0 <= d <= |t|
    ensures |r| > 0
    decreases |t| - d, |code| - q, 0
  {
    if TakesAt(code, q + 3, t, d) then Trace(code, x, t, q, d + 1) + if Pops(code, q) then [] else other
    else [Dead] + other
  }

  /** At the succeed_n of the interval at `p` after `k` characters. */
  ghost function CountTrace(code: seq<byte>, x: set<int>, t: seq<byte>, p: int, d: int, k: nat): (r: seq<Leaf>)
    requires Closed(code, x) && p in x && Fits(code, p) && Decode(code, p).Count? && IsInterval(code, p)
    requires 0 <= d <= |t| && k <= IntervalUpper(code, p)
    ensures |r| > 0
    decreases |t| - d, |code| - p, 0
  {
    DecodeLeads(code, x, p);
    var exit := IntervalExit(code, p);
    if k == IntervalUpper(code, p) then Trace(code, x, t, exit, d)
    else
      var more := if TakesAt(code, IntervalBody(code, p), t, d) then CountTrace(code, x, t, p, d + 1, k + 1) else [Dead];
      if k < IntervalLower(code, p) then more else more + Trace(code, x, t, exit, d)
  }

  predicate Reaches(tr: seq<Leaf>, e: int) {
    exists k :: 0 <= k < |tr| && tr[k] == End(e)
  }

  lemma ReachesAppend(a: seq<Leaf>, b: seq<Leaf>, e: int)
    ensures Reaches(a + b, e) <==> Reaches(a, e) || Reaches(b, e)
  {
    if Reaches(a, e) {
      var k :| 0 <= k < |a| && a[k] == End(e);
      assert (a + b)[k] == End(e);
    }
    if Reaches(b, e) {
      var k :| 0 <= k < |b| && b[k] == End(e);
      assert (a + b)[|a| + k] == End(e);
    }
  }

  // ---- every leaf is a run of the machine ----

  lemma LoopMoves(code: seq<byte>, t: seq<byte>, q: int, d: int, e: int)
    requires IsLoop(code, q) && 0 <= d <= |t|
    ensures Accepts(code, t, Thread(q, d), e) <==>
            Accepts(code, t, Thread(q + 3, d), e) || Accepts(code, t, Thread(LoopEnd(code, q) + 3, d), e)
    ensures Accepts(code, t, Thread(q + 3, d), e) <==>
            TakesAt(code, q + 3, t, d) && Accepts(code, t, Thread(q, d + 1), e)
  {
    hide Step, Accepts, Extract, Takes;
    AcceptsChoice(code, t, q, d, e);
    AcceptsOneChar(code, t, q + 3, d, e);
    if d < |t| {
      AcceptsJump(code, t, LoopEnd(code, q), d + 1, e);
    }
  }

  lemma AcceptsOneChar(code: seq<byte>, t: seq<byte>, p: int, d: int, e: int)
    requires OneChar(code, p) && 0 <= d <= |t|
    ensures Accepts(code, t, Thread(p, d), e) <==>
            TakesAt(code, p, t, d) && Accepts(code, t, Thread(p + OpLen(code, p), d + 1), e)
  {
    hide Step, Accepts, Takes;
    AcceptsStep(code, t, Thread(p, d), e);
    StepOneChar(code, t, Thread(p, d), Thread(p + OpLen(code, p), d + 1));
    if b :| Step(code, t, Thread(p, d), b) && Accepts(code, t, b, e) {
      StepOneChar(code, t, Thread(p, d), b);
    }
  }

  lemma AcceptsExactn(code: seq<byte>, t: seq<byte>, p: int, d: int, e: int)
    requires Fits(code, p) && code[p] == EXACTN && code[p + 1] >= 1 && 0 <= d <= |t|
    ensures var n := code[p + 1];
            Accepts(code, t, Thread(p, d), e) <==>
            && d + n <= |t| && t[d..d + n] == code[p + 2..p + 2 + n]
            && Accepts(code, t, Thread(p + 2 + n, d + n), e)
  {
    hide Step, Accepts;
    var n := code[p + 1];
    AcceptsStep(code, t, Thread(p, d), e);
    StepExactn(code, t, Thread(p, d), Thread(p + 2 + n, d + n), n);
    if b :| Step(code, t, Thread(p, d), b) && Accepts(code, t, b, e) {
      StepExactn(code, t, Thread(p, d), b, n);
    }
  }

  /** From the interval at `p` the machine gets to `e` by taking `k` characters first. */
  ghost predicate CountTo(code: seq<byte>, t: seq<byte>, p: int, d: int, k: nat, e: int)
    requires IsInterval(code, p)
  {
    && IntervalLower(code, p) <= k <= IntervalUpper(code, p)
    && TakesRun(code, IntervalBody(code, p), t, d, k)
    && Accepts(code, t, Thread(IntervalExit(code, p), d + k), e)
  }

  lemma AcceptsInterval(code: seq<byte>, t: seq<byte>, p: int, d: int, e: int)
    requires IsInterval(code, p) && 0 <= d <= |t|
    ensures Accepts(code, t, Thread(p, d), e) <==> exists k: nat :: CountTo(code, t, p, d, k, e)
  {
    hide Step, Accepts, IntervalLower, IntervalUpper, IntervalBody, IntervalExit, TakesRun;
    AcceptsStep(code, t, Thread(p, d), e);
    if k: nat :| CountTo(code, t, p, d, k, e) {
      StepIntervalAt(code, t, Thread(p, d), Thread(IntervalExit(code, p), d + k));
    }
    if b :| Step(code, t, Thread(p, d), b) && Accepts(code, t, b, e) {
      StepIntervalAt(code, t, Thread(p, d), b);
      var k: nat :| IntervalLower(code, p) <= k <= IntervalUpper(code, p) &&
        TakesRun(code, IntervalBody(code, p), t, d, k) && b == Thread(IntervalExit(code, p), d + k);
      assert CountTo(code, t, p, d, k, e);
    }
  }

  lemma {:induction false} TraceSound(code: seq<byte>, x: set<int>, t: seq<byte>, p: int, d: int, e: int)
    requires Closed(code, x) && p in x + {|code|} && 0 <= d <= |t|
    requires Reaches(Trace(code, x, t, p, d), e)
    ensures Accepts(code, t, Thread(p, d), e)
    decreases |t| - d, |code| - p, 1
  {
    hide Accepts, Step, Takes, Extract, IsLoop, IsInterval, Reaches, Closed, Decode;
    if p == |code| {
      AcceptsAtEnd(code, t, d, e);
      OneLeaf(d, e);
      return;
    }
    DecodeLeads(code, x, p);
    NoLeaf(e);
    match Decode(code, p)
    case Match(n, next) =>
      AcceptsExactn(code, t, p, d, e);
      if d + n <= |t| && t[d..d + n] == code[p + 2..p + 2 + n] {
        TraceSound(code, x, t, next, d + n, e);
      }
    case Take(next) =>
      AcceptsOneChar(code, t, p, d, e);
      if TakesAt(code, p, t, d) {
        TraceSound(code, x, t, next, d + 1, e);
      }
    case Skip(next) =>
      AcceptsSkip(code, t, p, d, e);
      TraceSound(code, x, t, next, d, e);
    case Dummy(next) =>
      AcceptsSkip(code, t, p, d, e);
      ReachesAppend(Trace(code, x, t, next, d), [Dead], e);
      TraceSound(code, x, t, next, d, e);
    case Goto(target) =>
      AcceptsJump(code, t, p, d, e);
      TraceSound(code, x, t, target, d, e);
    case Choice(first, second) =>
      AcceptsChoice(code, t, p, d, e);
      ReachesAppend(Trace(code, x, t, first, d), Trace(code, x, t, second, d), e);
      if Reaches(Trace(code, x, t, first, d), e) {
        TraceSound(code, x, t, first, d, e);
      } else {
        TraceSound(code, x, t, second, d, e);
      }
    case Loop(exit) =>
      LoopMoves(code, t, p, d, e);
      var other := Trace(code, x, t, exit, d);
      BodySound(code, x, t, p, d, other, e);
      if Reaches(other, e) {
        TraceSound(code, x, t, exit, d, e);
      }
    case PlusLoop(_) =>
      AcceptsJump(code, t, p, d, e);
      BodySound(code, x, t, p + 3, d, [Dead], e);
    case Count(_) =>
      var k := CountSound(code, x, t, p, d, 0, e);
      assert CountTo(code, t, p, d, k, e);
      AcceptsInterval(code, t, p, d, e);
  }

  lemma NoLeaf(e: int)
    ensures !Reaches([Dead], e)
  {}

  lemma OneLeaf(d: int, e: int)
    ensures Reaches([End(d)], e) <==> d == e
  {
    if d == e {
      assert [End(d)][0] == End(e);
    }
  }

  lemma {:induction false} BodySound(code: seq<byte>, x: set<int>, t: seq<byte>, q: int, d: int, other: seq<Leaf>, e: int)
    requires Closed(code, x) && q in x && IsLoop(code, q) && 0 <= d <= |t|
    requires Reaches(BodyTrace(code, x, t, q, d, other), e)
    ensures Reaches(other, e) || Accepts(code, t, Thread(q + 3, d), e)
    decreases |t| - d, |code| - q, 0
  {
    hide Accepts, Step, Takes, Extract, Pops, Reaches, Closed;
    NoLeaf(e);
    if TakesAt(code, q + 3, t, d) {
      var a := Trace(code, x, t, q, d + 1);
      ReachesAppend(a, if Pops(code, q) then [] else other, e);
      ReachesNothing(e);
      if Reaches(a, e) {
        TraceSound(code, x, t, q, d + 1, e);
        LoopMoves(code, t, q, d, e);
      }
    } else {
      ReachesAppend([Dead], other, e);
    }
  }

  lemma ReachesNothing(e: int)
    ensures !Reaches([], e)
  {}

  lemma {:induction false} CountSound(code: seq<byte>, x: set<int>, t: seq<byte>, p: int, d: int, k: nat, e: int) returns (j: nat)
    requires Closed(code, x) && p in x && Fits(code, p) && Decode(code, p).Count? && IsInterval(code, p)
    requires 0 <= d <= |t| && k <= IntervalUpper(code, p)
    requires Reaches(CountTrace(code, x, t, p, d, k), e)
    ensures IntervalLower(code, p) <= k + j <= IntervalUpper(code, p)
    ensures TakesRun(code, IntervalBody(code, p), t, d, j) && Accepts(code, t, Thread(IntervalExit(code, p), d + j), e)
    decreases |t| - d, |code| - p, 0
  {
    hide Accepts, Step, Takes, Extract, Reaches, Closed, Decode, IsInterval, IntervalLower, IntervalUpper, IntervalBody, IntervalExit;
    DecodeLeads(code, x, p);
    var exit, b := IntervalExit(code, p), IntervalBody(code, p);
    if k == IntervalUpper(code, p) {
      TraceSound(code, x, t, exit, d, e);
      j := 0;
    } else {
      var more := if TakesAt(code, b, t, d) then CountTrace(code, x, t, p, d + 1, k + 1) else [Dead];
      ReachesAppend(more, Trace(code, x, t, exit, d), e);
      NoLeaf(e);
      if Reaches(more, e) {
        j := CountSound(code, x, t, p, d + 1, k + 1, e);
        j := j + 1;
      } else {
        TraceSound(code, x, t, exit, d, e);
        j := 0;
      }
    }
  }

  // ---- no run of the machine is missed, except for shorter ones ----

  /** The loop test of every loop is harmless. */
  ghost predicate TestsRight(code: seq<byte>, x: set<int>) {
    forall q :: q in x && IsLoop(code, q) ==> TestRight(code, q)
  }

  lemma {:induction false} SkipMemoryMoves(code: seq<byte>, x: set<int>, t: seq<byte>, p: int, d: int, e: int)
    requires Closed(code, x) && p in x + {|code|} && 0 <= p <= |code| && 0 <= d <= |t|
    ensures SkipMemory(code, p) in x + {|code|}
    ensures Accepts(code, t, Thread(p, d), e) <==> Accepts(code, t, Thread(SkipMemory(code, p), d), e)
    decreases |code| - p
  {
    hide Accepts, Step, Closed, Decode;
    if p + 2 < |code| && (code[p] == STOP_MEMORY || code[p] == START_MEMORY) {
      DecodeLeads(code, x, p);
      AcceptsSkip(code, t, p, d, e);
      SkipMemoryMoves(code, x, t, p + 3, d, e);
    }
  }

  lemma ExactFirst(code: seq<byte>, t: seq<byte>, p: int, d: int, e: int)
    requires Fits(code, p) && code[p] == EXACTN && code[p + 1] >= 1 && 0 <= d <= |t|
    requires Accepts(code, t, Thread(p, d), e)
    ensures d < |t| && t[d] == code[p + 2]
  {
    hide Accepts;
    AcceptsExactn(code, t, p, d, e);
    var n := code[p + 1];
    assert t[d] == t[d..d + n][0] && code[p + 2] == code[p + 2..p + 2 + n][0];
  }

  /** When the loop at `q` throws its failure points away and its body takes the character at `d`, leaving the
      loop at `d` instead is either impossible or accepts no more than leaving it one character later. */
  lemma PopsHarmless(code: seq<byte>, x: set<int>, t: seq<byte>, q: int, d: int, e: int)
    requires Closed(code, x) && q in x && IsLoop(code, q) && TestRight(code, q)
    requires 0 <= d <= |t| && Pops(code, q) && TakesAt(code, q + 3, t, d)
    requires Accepts(code, t, Thread(LoopEnd(code, q) + 3, d), e)
    ensures e <= d + 1 && Accepts(code, t, Thread(q, d + 1), d + 1)
  {
    hide Accepts, Step, Closed, Decode, Takes, Extract, IsLoop, ExactPops, SkipMemory, TestRight, FollowedBy;
    LoopExit(code, x, q);
    var exit := LoopEnd(code, q) + 3;
    SkipMemoryMoves(code, x, t, exit, d, e);
    var r := After(code, q);
    if r == |code| {
      AcceptsAtEnd(code, t, d, e);
      SkipMemoryMoves(code, x, t, exit, d + 1, d + 1);
      AcceptsAtEnd(code, t, d + 1, d + 1);
      LoopMoves(code, t, q, d + 1, d + 1);
    } else {
      DecodeLeads(code, x, r);
      DecodeExactn(code, r);
      ExactFirst(code, t, r, d, e);
      UseTest(code, q, t[d]);
    }
  }

  lemma LoopExit(code: seq<byte>, x: set<int>, q: int)
    requires Closed(code, x) && q in x && IsLoop(code, q)
    ensures LoopEnd(code, q) + 3 in x + {|code|} && 0 <= LoopEnd(code, q) + 3 <= |code|
  {
    assert WfAt(code, q, x + {|code|});
  }

  lemma DecodeExactn(code: seq<byte>, p: int)
    requires Fits(code, p) && code[p] == EXACTN
    ensures Decode(code, p).Match? && Decode(code, p).n == code[p + 1]
  {}

  lemma UseTest(code: seq<byte>, q: int, c: byte)
    requires IsLoop(code, q) && TestRight(code, q) && FollowedBy(code, q, c) && ExactPops(code, q, c)
    ensures !Takes(code, q + 3, c)
  {}

  lemma {:induction false} TraceComplete(code: seq<byte>, x: set<int>, t: seq<byte>, p: int, d: int, e: int) returns (e': int)
    requires Closed(code, x) && TestsRight(code, x) && p in x + {|code|} && 0 <= d <= |t|
    requires Accepts(code, t, Thread(p, d), e)
    ensures e <= e' && Reaches(Trace(code, x, t, p, d), e')
    decreases |t| - d, |code| - p, 2
  {
    hide Accepts, Step, Takes, Extract, IsLoop, IsInterval, Reaches, Closed, Decode;
    if p == |code| {
      AcceptsAtEnd(code, t, d, e);
      OneLeaf(d, e);
      return e;
    }
    DecodeLeads(code, x, p);
    match Decode(code, p)
    case Match(n, next) =>
      AcceptsExactn(code, t, p, d, e);
      e' := TraceComplete(code, x, t, next, d + n, e);
    case Take(next) =>
      AcceptsOneChar(code, t, p, d, e);
      e' := TraceComplete(code, x, t, next, d + 1, e);
    case Skip(next) =>
      AcceptsSkip(code, t, p, d, e);
      e' := TraceComplete(code, x, t, next, d, e);
    case Dummy(next) =>
      AcceptsSkip(code, t, p, d, e);
      e' := TraceComplete(code, x, t, next, d, e);
      ReachesAppend(Trace(code, x, t, next, d), [Dead], e');
    case Goto(target) =>
      AcceptsJump(code, t, p, d, e);
      e' := TraceComplete(code, x, t, target, d, e);
    case Choice(first, second) =>
      AcceptsChoice(code, t, p, d, e);
      if Accepts(code, t, Thread(first, d), e) {
        e' := TraceComplete(code, x, t, first, d, e);
      } else {
        e' := TraceComplete(code, x, t, second, d, e);
      }
      ReachesAppend(Trace(code, x, t, first, d), Trace(code, x, t, second, d), e');
    case Loop(exit) => e' := LoopComplete(code, x, t, p, d, e);
    case PlusLoop(_) =>
      AcceptsJump(code, t, p, d, e);
      LoopMoves(code, t, p + 3, d, e);
      e' := TraceComplete(code, x, t, p + 3, d + 1, e);
      ReachesAppend(Trace(code, x, t, p + 3, d + 1), if Pops(code, p + 3) then [] else [Dead], e');
    case Count(_) => e' := IntervalComplete(code, x, t, p, d, e);
  }

  lemma {:induction false} IntervalComplete(code: seq<byte>, x: set<int>, t: seq<byte>, p: int, d: int, e: int) returns (e': int)
    requires Closed(code, x) && TestsRight(code, x) && p in x && 0 <= d <= |t|
    requires Fits(code, p) && Decode(code, p).Count? && IsInterval(code, p) && Accepts(code, t, Thread(p, d), e)
    ensures e <= e' && Reaches(CountTrace(code, x, t, p, d, 0), e')
    decreases |t| - d, |code| - p, 1
  {
    hide Closed, TestsRight, Fits, Decode, IsInterval, Accepts, Reaches, CountTrace, TakesRun, IntervalLower, IntervalUpper,
      IntervalBody, IntervalExit;
    AcceptsInterval(code, t, p, d, e);
    var k: nat :| CountTo(code, t, p, d, k, e);
    e' := CountComplete(code, x, t, p, d, 0, k, e);
  }

  lemma LoopNext(code: seq<byte>, x: set<int>, q: int)
    requires Closed(code, x) && q in x && IsLoop(code, q)
    ensures var exit := LoopEnd(code, q) + 3;
            q < exit && exit in x + {|code|} && Fits(code, q) && Decode(code, q) == Loop(exit) && OneChar(code, q + 3)
  {
    hide Extract;
    LoopExit(code, x, q);
  }

  lemma LoopTest(code: seq<byte>, x: set<int>, q: int)
    requires TestsRight(code, x) && q in x && IsLoop(code, q)
    ensures TestRight(code, q)
  {
    hide IsLoop, TestRight;
  }

  lemma {:induction false} LoopComplete(code: seq<byte>, x: set<int>, t: seq<byte>, q: int, d: int, e: int) returns (e': int)
    requires Closed(code, x) && TestsRight(code, x) && q in x && IsLoop(code, q) && 0 <= d <= |t|
    requires Accepts(code, t, Thread(q, d), e)
    ensures e <= e' && Reaches(Trace(code, x, t, q, d), e')
    decreases |t| - d, |code| - q, 0
  {
    hide Accepts, Step, Takes, Extract, IsLoop, Reaches, Closed, Pops, Decode, TestRight, TestsRight;
    var exit := LoopEnd(code, q) + 3;
    LoopNext(code, x, q);
    LoopTest(code, x, q);
    LoopMoves(code, t, q, d, e);
    var other := Trace(code, x, t, exit, d);
    var rest := if Pops(code, q) then [] else other;
    if TakesAt(code, q + 3, t, d) {
      if Accepts(code, t, Thread(q, d + 1), e) {
        e' := TraceComplete(code, x, t, q, d + 1, e);
      } else if Pops(code, q) {
        PopsHarmless(code, x, t, q, d, e);
        e' := TraceComplete(code, x, t, q, d + 1, d + 1);
      } else {
        e' := TraceComplete(code, x, t, exit, d, e);
      }
      ReachesAppend(Trace(code, x, t, q, d + 1), rest, e');
    } else {
      e' := TraceComplete(code, x, t, exit, d, e);
      ReachesAppend([Dead], other, e');
    }
  }

  lemma {:induction false} CountComplete(code: seq<byte>, x: set<int>, t: seq<byte>, p: int, d: int, k: nat, j: nat, e: int) returns (e': int)
    requires Closed(code, x) && TestsRight(code, x)
    requires p in x && Fits(code, p) && Decode(code, p).Count? && IsInterval(code, p)
    requires 0 <= d <= |t| && IntervalLower(code, p) <= k + j <= IntervalUpper(code, p)
    requires TakesRun(code, IntervalBody(code, p), t, d, j) && Accepts(code, t, Thread(IntervalExit(code, p), d + j), e)
    ensures e <= e' && Reaches(CountTrace(code, x, t, p, d, k), e')
    decreases |t| - d, |code| - p, 0
  {
    hide Accepts, Step, Takes, Extract, Reaches, Closed, Decode, IsInterval, IntervalLower, IntervalUpper, IntervalBody, IntervalExit;
    DecodeLeads(code, x, p);
    var exit, b := IntervalExit(code, p), IntervalBody(code, p);
    if k == IntervalUpper(code, p) {
      e' := TraceComplete(code, x, t, exit, d, e);
    } else {
      if j > 0 {
        e' := CountComplete(code, x, t, p, d + 1, k + 1, j - 1, e);
      } else {
        e' := TraceComplete(code, x, t, exit, d, e);
      }
      var more := if TakesAt(code, b, t, d) then CountTrace(code, x, t, p, d + 1, k + 1) else [Dead];
      ReachesAppend(more, Trace(code, x, t, exit, d), e');
    }
  }

  // ---- what the matcher makes of the leaves ----

  /** The largest end among the leaves, -1 if there is none. */
  function Best(tr: seq<Leaf>): int {
    if |tr| == 0 then -1
    else
      var b, last := Best(tr[..|tr| - 1]), tr[|tr| - 1];
      if last.End? && last.e > b then last.e else b
  }

  /** The end of the match `re_match_2` reports, -1 for none: `full` when some leaf gets there, otherwise
      the best leaf, where a last leaf that finds the failure stack empty only counts if there was no match before. */
  function Outcome(tr: seq<Leaf>, full: int): int
    requires |tr| > 0
  {
    var b, last := Best(tr[..|tr| - 1]), tr[|tr| - 1];
    if Reaches(tr, full) then full
    else if b >= 0 then b
    else if last.End? then last.e
    else -1
  }

  lemma {:induction false} BestIs(tr: seq<Leaf>)
    requires forall k :: 0 <= k < |tr| && tr[k].End? ==> tr[k].e >= 0
    ensures Best(tr) == -1 || (Best(tr) >= 0 && Reaches(tr, Best(tr)))
    ensures forall k :: 0 <= k < |tr| && tr[k].End? ==> tr[k].e <= Best(tr)
  {
    if |tr| > 0 {
      var init := tr[..|tr| - 1];
      BestIs(init);
      assert tr == init + [tr[|tr| - 1]];
      ReachesAppend(init, [tr[|tr| - 1]], Best(init));
      assert tr[|tr| - 1].End? ==> Reaches(tr, tr[|tr| - 1].e);
    }
  }

  lemma LastLeaf(tr: seq<Leaf>, e: int)
    requires |tr| > 0
    ensures Reaches(tr, e) <==> Reaches(tr[..|tr| - 1], e) || tr[|tr| - 1] == End(e)
  {
    var init, last := tr[..|tr| - 1], tr[|tr| - 1];
    assert tr == init + [last];
    ReachesAppend(init, [last], e);
    assert [last][0] == last;
  }

  lemma OutcomeReaches(tr: seq<Leaf>, full: int)
    requires |tr| > 0 && forall k :: 0 <= k < |tr| && tr[k].End? ==> 0 <= tr[k].e
    ensures Outcome(tr, full) != -1 && full >= 0 ==> Reaches(tr, Outcome(tr, full))
    ensures Outcome(tr, full) == -1 && full >= 0 ==> forall e :: !Reaches(tr, e)
  {
    hide Reaches;
    var init, last := tr[..|tr| - 1], tr[|tr| - 1];
    BestIs(init);
    LastLeaf(tr, Best(init));
    if last.End? {
      LastLeaf(tr, last.e);
    }
    forall e | Outcome(tr, full) == -1 && full >= 0
      ensures !Reaches(tr, e)
    {
      LastLeaf(tr, e);
      NoEnds(init, e);
    }
  }

  lemma NoEnds(tr: seq<Leaf>, e: int)
    requires forall k :: 0 <= k < |tr| ==> !tr[k].End? || tr[k].e < 0
    requires forall k :: 0 <= k < |tr| && tr[k].End? ==> 0 <= tr[k].e
    ensures !Reaches(tr, e)
  {}

  lemma StartIn(code: seq<byte>, x: set<int>)
    requires WfProgram(code, x)
    ensures 0 in x + {|code|}
  {
    hide WfAt, Span;
  }

  /** What the outcome says about the pattern: no match is reported exactly when there is none, a reported
      end is a real one, and a match up to `|t|` is always found. */
  lemma OutcomeMeaning(code: seq<byte>, x: set<int>, t: seq<byte>, pos: int)
    requires WfProgram(code, x) && Closed(code, x) && TestsRight(code, x) && 0 <= pos <= |t|
    ensures var r := Outcome(Trace(code, x, t, 0, pos), |t|);
            && (r == -1 <==> forall e :: !Accepts(code, t, Thread(0, pos), e))
            && (r != -1 ==> Accepts(code, t, Thread(0, pos), r))
            && (Accepts(code, t, Thread(0, pos), |t|) ==> r == |t|)
  {
    hide Accepts, Step, Closed, TestsRight, WfProgram, Trace;
    StartIn(code, x);
    var tr := Trace(code, x, t, 0, pos);
    forall e | Reaches(tr, e)
      ensures Accepts(code, t, Thread(0, pos), e) && 0 <= e <= |t|
    {
      TraceSound(code, x, t, 0, pos, e);
      AcceptsBounds(code, t, Thread(0, pos), e);
    }
    assert forall k :: 0 <= k < |tr| && tr[k].End? ==> Reaches(tr, tr[k].e);
    hide Reaches;
    OutcomeReaches(tr, |t|);
    var r := Outcome(tr, |t|);
    forall e | Accepts(code, t, Thread(0, pos), e)
      ensures r != -1 && (e == |t| ==> r == |t|)
    {
      AcceptsBounds(code, t, Thread(0, pos), e);
      var e' := TraceComplete(code, x, t, 0, pos, e);
    }
  }

  lemma OutcomeIsBest(tr: seq<Leaf>, full: int)
    requires |tr| > 0 && forall k :: 0 <= k < |tr| && tr[k].End? ==> 0 <= tr[k].e <= full
    ensures var init, last := tr[..|tr| - 1], tr[|tr| - 1];
            (forall e :: Reaches(tr, e) ==> e <= Outcome(tr, full)) <==>
            !(last.End? && last.e < full && 0 <= Best(init) < last.e)
  {
    var init, last := tr[..|tr| - 1], tr[|tr| - 1];
    BestIs(init);
    forall e ensures Reaches(tr, e) <==> Reaches(init, e) || last == End(e) {
      LastLeaf(tr, e);
    }
    if last.End? {
      assert Reaches(tr, last.e);
    }
  }

  /** The result is the longest match unless the path that is tried last is longer than every match found before it. */
  lemma LongestIff(code: seq<byte>, x: set<int>, t: seq<byte>, pos: int)
    requires WfProgram(code, x) && Closed(code, x) && TestsRight(code, x) && 0 <= pos <= |t|
    ensures var tr := Trace(code, x, t, 0, pos);
            var init, last := tr[..|tr| - 1], tr[|tr| - 1];
            (forall e :: Accepts(code, t, Thread(0, pos), e) ==> e <= Outcome(tr, |t|)) <==>
            !(last.End? && last.e < |t| && 0 <= Best(init) < last.e)
  {
    hide Accepts, Step, Closed, TestsRight, WfProgram, Trace, Outcome, Best;
    StartIn(code, x);
    var tr := Trace(code, x, t, 0, pos);
    forall k | 0 <= k < |tr| && tr[k].End?
      ensures 0 <= tr[k].e <= |t|
    {
      LeafAccepted(code, x, t, pos, tr[k].e);
    }
    OutcomeIsBest(tr, |t|);
    if e :| Reaches(tr, e) && e > Outcome(tr, |t|) {
      LeafAccepted(code, x, t, pos, e);
    } else {
      forall e | Accepts(code, t, Thread(0, pos), e)
        ensures e <= Outcome(tr, |t|)
      {
        AcceptsBounds(code, t, Thread(0, pos), e);
        var e' := TraceComplete(code, x, t, 0, pos, e);
      }
    }
  }

  lemma LeafAccepted(code: seq<byte>, x: set<int>, t: seq<byte>, pos: int, e: int)
    requires WfProgram(code, x) && Closed(code, x) && 0 <= pos <= |t| && 0 in x + {|code|}
    requires Reaches(Trace(code, x, t, 0, pos), e)
    ensures Accepts(code, t, Thread(0, pos), e) && 0 <= e <= |t|
  {
    hide Accepts, Step, Closed, Trace, WfProgram, Reaches;
    TraceSound(code, x, t, 0, pos, e);
    AcceptsBounds(code, t, Thread(0, pos), e);
  }
}
