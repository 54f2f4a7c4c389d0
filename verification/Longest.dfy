/** Patterns whose longest match is always reported: those without a bare `|`. */
module Longest {
  import opened Bytes
  import opened Opcodes
  import opened Regex
  import opened Code
  import opened Machine
  import opened CompilerCorrect
  import opened WellFormed
  import opened Traces
  import opened Paths

  function Last(tr: seq<Leaf>): Leaf
    requires |tr| > 0
  {
    tr[|tr| - 1]
  }

  /** The end of the path `a` tries last is no larger than any end in `b`. */
  ghost predicate Least(a: seq<Leaf>, b: seq<Leaf>)
    requires |a| > 0
  {
    Last(a).End? ==> forall e :: Reaches(b, e) ==> Last(a).e <= e
  }

  /** What is tried last from `p` on takes least, even among what starts later in the text. */
  ghost predicate Lazy(code: seq<byte>, x: set<int>, t: seq<byte>, p: int) {
    forall d, d' :: 0 <= d <= d' <= |t| ==> LeastFrom(code, x, t, p, d, d')
  }

  ghost predicate LeastFrom(code: seq<byte>, x: set<int>, t: seq<byte>, p: int, d: int, d': int) {
    Standing(code, x, t, p, d) && Standing(code, x, t, p, d') && Least(Leaves(code, x, t, p, d), Leaves(code, x, t, p, d'))
  }

  // ---- paths that pass through a place ----

  /** Every end in `tr` is one that is reached from `p` at `d` or later. */
  ghost predicate EndsFrom(code: seq<byte>, x: set<int>, t: seq<byte>, p: int, d: int, tr: seq<Leaf>) {
    forall e :: Reaches(tr, e) ==> EndFrom(code, x, t, p, d, e)
  }

  ghost predicate EndFrom(code: seq<byte>, x: set<int>, t: seq<byte>, p: int, d: int, e: int) {
    exists d' :: d <= d' && Standing(code, x, t, p, d') && Reaches(Leaves(code, x, t, p, d'), e)
  }

  /** The last path of `tr` is given up, or is the last one from `p` at `d`. */
  ghost predicate LastAt(code: seq<byte>, x: set<int>, t: seq<byte>, p: int, d: int, tr: seq<Leaf>)
    requires |tr| > 0
  {
    Last(tr) == Dead || (Standing(code, x, t, p, d) && Last(tr) == Last(Leaves(code, x, t, p, d)))
  }

  ghost predicate LastFrom(code: seq<byte>, x: set<int>, t: seq<byte>, p: int, d: int, tr: seq<Leaf>)
    requires |tr| > 0
  {
    Last(tr) == Dead || exists d' :: d <= d' && Standing(code, x, t, p, d') && Last(tr) == Last(Leaves(code, x, t, p, d'))
  }

  lemma LazyFrom(code: seq<byte>, x: set<int>, t: seq<byte>, p: int, d: int, d': int, a: seq<Leaf>, b: seq<Leaf>)
    requires Lazy(code, x, t, p) && 0 <= d <= d' && |a| > 0
    requires LastAt(code, x, t, p, d, a) && EndsFrom(code, x, t, p, d', b)
    ensures Least(a, b)
  {
    hide Closed, Leaves, Reaches;
    if Last(a).End? {
      forall e | Reaches(b, e)
        ensures Last(a).e <= e
      {
        assert EndFrom(code, x, t, p, d', e);
        var d'' :| d' <= d'' && Standing(code, x, t, p, d'') && Reaches(Leaves(code, x, t, p, d''), e);
        assert LeastFrom(code, x, t, p, d, d'');
      }
    }
  }

  lemma LastAppend(a: seq<Leaf>, b: seq<Leaf>)
    requires |b| > 0
    ensures Last(a + b) == Last(b)
  {}

  lemma EndsAppend(code: seq<byte>, x: set<int>, t: seq<byte>, p: int, d: int, a: seq<Leaf>, b: seq<Leaf>)
    requires EndsFrom(code, x, t, p, d, a) && EndsFrom(code, x, t, p, d, b)
    ensures EndsFrom(code, x, t, p, d, a + b)
  {
    hide Reaches, EndFrom;
    forall e | Reaches(a + b, e)
      ensures EndFrom(code, x, t, p, d, e)
    {
      ReachesAppend(a, b, e);
    }
  }

  lemma EndsDead(code: seq<byte>, x: set<int>, t: seq<byte>, p: int, d: int)
    ensures EndsFrom(code, x, t, p, d, [Dead])
  {
    hide EndFrom;
  }

  lemma EndsHere(code: seq<byte>, x: set<int>, t: seq<byte>, p: int, d: int)
    requires Standing(code, x, t, p, d)
    ensures EndsFrom(code, x, t, p, d, Leaves(code, x, t, p, d))
  {
    hide Standing, Leaves, Reaches;
  }

  lemma EndsLater(code: seq<byte>, x: set<int>, t: seq<byte>, p: int, d: int, d': int, tr: seq<Leaf>)
    requires d <= d' && EndsFrom(code, x, t, p, d', tr)
    ensures EndsFrom(code, x, t, p, d, tr)
  {
    hide Standing, Leaves, Reaches;
    forall e | Reaches(tr, e)
      ensures EndFrom(code, x, t, p, d, e)
    {
      assert EndFrom(code, x, t, p, d', e);
    }
  }

  // ---- loops and intervals over one character ----

  /** Where a greedy loop stops. */
  function Stop(code: seq<byte>, q: int, t: seq<byte>, d: int): (s: int)
    requires IsLoop(code, q) && 0 <= d <= |t|
    ensures d <= s <= |t|
    decreases |t| - d
  {
    if TakesAt(code, q + 3, t, d) then Stop(code, q, t, d + 1) else d
  }

  lemma LoopChar(code: seq<byte>, q: int)
    requires IsLoop(code, q)
    ensures OneChar(code, q + 3)
  {}

  lemma {:induction false} StopLater(code: seq<byte>, q: int, t: seq<byte>, d: int, d': int)
    requires IsLoop(code, q) && 0 <= d <= d' <= |t|
    ensures Stop(code, q, t, d) <= Stop(code, q, t, d')
    decreases |t| - d
  {
    hide IsLoop, Takes, OneChar;
    LoopChar(code, q);
    if d < d' && TakesAt(code, q + 3, t, d) {
      StopLater(code, q, t, d + 1, d');
    }
  }

  /** Where the continuation of a loop starts at the earliest. */
  function Exits(code: seq<byte>, q: int, t: seq<byte>, d: int): (s: int)
    requires IsLoop(code, q) && 0 <= d <= |t|
    ensures d <= s <= |t|
  {
    if Pops(code, q) then Stop(code, q, t, d) else d
  }

  lemma ExitsLater(code: seq<byte>, q: int, t: seq<byte>, d: int, d': int)
    requires IsLoop(code, q) && 0 <= d <= d' <= |t|
    ensures Exits(code, q, t, d) <= Exits(code, q, t, d')
  {
    hide IsLoop, Stop, Pops;
    StopLater(code, q, t, d, d');
  }

  ghost predicate LeavesAt(code: seq<byte>, x: set<int>, t: seq<byte>, exit: int, s: int, tr: seq<Leaf>)
    requires |tr| > 0
  {
    LastAt(code, x, t, exit, s, tr) && EndsFrom(code, x, t, exit, s, tr)
  }

  lemma LeavesAtAppend(code: seq<byte>, x: set<int>, t: seq<byte>, exit: int, d: int, d': int, a: seq<Leaf>)
    requires d <= d' && Standing(code, x, t, exit, d) && EndsFrom(code, x, t, exit, d', a)
    ensures LeavesAt(code, x, t, exit, d, a + Leaves(code, x, t, exit, d))
  {
    hide Standing, Leaves, EndsFrom, Last;
    EndsLater(code, x, t, exit, d, d', a);
    EndsHere(code, x, t, exit, d);
    EndsAppend(code, x, t, exit, d, a, Leaves(code, x, t, exit, d));
    LastAppend(a, Leaves(code, x, t, exit, d));
  }

  lemma LeavesAtDead(code: seq<byte>, x: set<int>, t: seq<byte>, exit: int, d: int)
    ensures LeavesAt(code, x, t, exit, d, [Dead])
  {
    hide EndsFrom, Leaves, Standing;
    EndsDead(code, x, t, exit, d);
  }

  lemma LeavesAtHere(code: seq<byte>, x: set<int>, t: seq<byte>, exit: int, d: int)
    requires Standing(code, x, t, exit, d)
    ensures LeavesAt(code, x, t, exit, d, Leaves(code, x, t, exit, d))
  {
    hide EndsFrom, Leaves, Standing, Last;
    EndsHere(code, x, t, exit, d);
  }

  lemma {:induction false} LoopPaths(code: seq<byte>, x: set<int>, t: seq<byte>, q: int, d: int)
    requires Standing(code, x, t, q, d) && 0 <= d <= |t| && q in x && IsLoop(code, q)
    ensures LeavesAt(code, x, t, LoopEnd(code, q) + 3, Exits(code, q, t, d), Leaves(code, x, t, q, d))
    decreases |t| - d
  {
    hide Standing, Leaves, IsLoop, OneChar, LoopEnd, TakesAt, Pops, LeavesAt, EndsFrom;
    var exit := LoopEnd(code, q) + 3;
    LeavesLoop(code, x, t, q, d);
    CharInside(code, q + 3, t, d);
    if TakesAt(code, q + 3, t, d) {
      LoopPaths(code, x, t, q, d + 1);
      LoopTakes(code, x, t, q, d);
    } else {
      EndsDead(code, x, t, exit, d);
      LeavesAtAppend(code, x, t, exit, d, d, [Dead]);
    }
  }

  lemma LoopTakes(code: seq<byte>, x: set<int>, t: seq<byte>, q: int, d: int)
    requires Standing(code, x, t, q, d) && 0 <= d < |t| && IsLoop(code, q) && LoopGoes(code, x, t, q, d)
    requires OneChar(code, q + 3) && TakesAt(code, q + 3, t, d) && Standing(code, x, t, q, d + 1)
    requires LeavesAt(code, x, t, LoopEnd(code, q) + 3, Exits(code, q, t, d + 1), Leaves(code, x, t, q, d + 1))
    ensures LeavesAt(code, x, t, LoopEnd(code, q) + 3, Exits(code, q, t, d), Leaves(code, x, t, q, d))
  {
    hide Standing, Leaves, IsLoop, OneChar, LoopEnd, TakesAt, Pops, LastAt, EndsFrom;
    var more := Leaves(code, x, t, q, d + 1);
    if Pops(code, q) {
      assert more + [] == more;
    } else {
      LeavesAtAppend(code, x, t, LoopEnd(code, q) + 3, d, d + 1, more);
    }
  }

  /** How many characters an interval must still take after `k` of them. */
  function Due(code: seq<byte>, p: int, k: nat): nat
    requires IsInterval(code, p)
  {
    if k < IntervalLower(code, p) then IntervalLower(code, p) - k else 0
  }

  lemma {:induction false} CountPaths(code: seq<byte>, x: set<int>, t: seq<byte>, p: int, d: int, k: nat)
    requires AtCount(code, x, t, p, d, k) && IsInterval(code, p)
    ensures LeavesAt(code, x, t, IntervalExit(code, p), d + Due(code, p, k), CountLeaves(code, x, t, p, d, k))
    decreases |t| - d
  {
    hide AtCount, Standing, Leaves, IsInterval, IntervalExit, IntervalBody, IntervalUpper, IntervalLower, TakesAt, LeavesAt, EndsFrom,
      CountLeaves, Decode, Fits;
    var exit := IntervalExit(code, p);
    CountFacts(code, x, t, p, d, k);
    LeavesCounting(code, x, t, p, d, k);
    LowerUpper(code, p);
    if k == IntervalUpper(code, p) {
      LeavesAtHere(code, x, t, exit, d);
    } else {
      CharInside(code, IntervalBody(code, p), t, d);
      LeavesAtDead(code, x, t, exit, d + Due(code, p, k));
      EndsDead(code, x, t, exit, d);
      if TakesAt(code, IntervalBody(code, p), t, d) {
        CountPaths(code, x, t, p, d + 1, k + 1);
        if k >= IntervalLower(code, p) {
          LeavesAtEnds(code, x, t, exit, d + 1, CountLeaves(code, x, t, p, d + 1, k + 1));
          LeavesAtAppend(code, x, t, exit, d, d + 1, CountLeaves(code, x, t, p, d + 1, k + 1));
        }
      } else if k >= IntervalLower(code, p) {
        LeavesAtAppend(code, x, t, exit, d, d, [Dead]);
      }
    }
  }

  lemma LeavesAtEnds(code: seq<byte>, x: set<int>, t: seq<byte>, exit: int, s: int, tr: seq<Leaf>)
    requires |tr| > 0 && LeavesAt(code, x, t, exit, s, tr)
    ensures EndsFrom(code, x, t, exit, s, tr)
  {
    hide EndsFrom, LastAt;
  }

  lemma LowerUpper(code: seq<byte>, p: int)
    requires IsInterval(code, p)
    ensures IntervalLower(code, p) <= IntervalUpper(code, p)
  {
    hide IsInterval;
  }

  // ---- every path through a block of code leaves it at its end ----

  ghost predicate Inside(code: seq<byte>, x: set<int>, y: set<int>, hi: int) {
    Closed(code, x) && y <= x && hi in x + {|code|} && forall p :: p in y ==> p < hi && WfAt(code, p, y + {hi})
  }

  ghost predicate Through(code: seq<byte>, x: set<int>, t: seq<byte>, hi: int, d: int, tr: seq<Leaf>)
    requires |tr| > 0
  {
    EndsFrom(code, x, t, hi, d, tr) && LastFrom(code, x, t, hi, d, tr)
  }

  lemma ThroughAppend(code: seq<byte>, x: set<int>, t: seq<byte>, hi: int, d: int, a: seq<Leaf>, b: seq<Leaf>)
    requires |a| > 0 && |b| > 0 && Through(code, x, t, hi, d, a) && Through(code, x, t, hi, d, b)
    ensures Through(code, x, t, hi, d, a + b)
  {
    hide Standing, Leaves, EndsFrom, Last;
    EndsAppend(code, x, t, hi, d, a, b);
    LastAppend(a, b);
  }

  lemma ThroughLater(code: seq<byte>, x: set<int>, t: seq<byte>, hi: int, d: int, d': int, tr: seq<Leaf>)
    requires |tr| > 0 && d <= d' && Through(code, x, t, hi, d', tr)
    ensures Through(code, x, t, hi, d, tr)
  {
    hide Standing, Leaves, EndsFrom, Last;
    EndsLater(code, x, t, hi, d, d', tr);
  }

  lemma ThroughDead(code: seq<byte>, x: set<int>, t: seq<byte>, hi: int, d: int)
    ensures Through(code, x, t, hi, d, [Dead])
  {
    hide Standing, Leaves, EndsFrom;
    EndsDead(code, x, t, hi, d);
  }

  lemma ThroughHere(code: seq<byte>, x: set<int>, t: seq<byte>, hi: int, d: int)
    requires Standing(code, x, t, hi, d)
    ensures Through(code, x, t, hi, d, Leaves(code, x, t, hi, d))
  {
    hide Standing, Leaves, EndsFrom, Last;
    EndsHere(code, x, t, hi, d);
  }

  /** Paths that leave one place after another. */
  lemma ThroughExit(code: seq<byte>, x: set<int>, t: seq<byte>, hi: int, exit: int, d: int, s: int, tr: seq<Leaf>)
    requires |tr| > 0 && d <= s && LeavesAt(code, x, t, exit, s, tr)
    requires forall d' :: d <= d' && Standing(code, x, t, exit, d') ==> Passes(code, x, t, hi, exit, d')
    ensures Through(code, x, t, hi, d, tr)
  {
    hide Standing, Leaves, Reaches, Last;
    forall e | Reaches(tr, e)
      ensures EndFrom(code, x, t, hi, d, e)
    {
      assert EndFrom(code, x, t, exit, s, e);
      var d' :| s <= d' && Standing(code, x, t, exit, d') && Reaches(Leaves(code, x, t, exit, d'), e);
      assert Passes(code, x, t, hi, exit, d');
      assert EndFrom(code, x, t, hi, d', e);
    }
    if Last(tr) != Dead {
      assert Passes(code, x, t, hi, exit, s);
    }
  }

  ghost predicate Passes(code: seq<byte>, x: set<int>, t: seq<byte>, hi: int, p: int, d: int) {
    Standing(code, x, t, p, d) && Through(code, x, t, hi, d, Leaves(code, x, t, p, d))
  }

  lemma InsideStands(code: seq<byte>, x: set<int>, y: set<int>, t: seq<byte>, hi: int, p: int, d: int)
    requires Inside(code, x, y, hi) && p in y + {hi} && 0 <= d <= |t|
    ensures Standing(code, x, t, p, d) && (p != hi ==> p in y && p in x && Fits(code, p) && 0 <= p < |code|)
    ensures p != hi ==> Leads(Decode(code, p), p, y, hi) && Leads(Decode(code, p), p, x, |code|)
  {
    hide Decode, WfAt, Leads, Shape;
    if p != hi {
      DecodeLeads(code, x, p);
      DecodeGoes(code, p, y, hi);
      InProgram(code, p);
    }
  }

  lemma {:induction false} BlockPaths(code: seq<byte>, x: set<int>, y: set<int>, t: seq<byte>, hi: int, p: int, d: int)
    requires Inside(code, x, y, hi) && p in y + {hi} && 0 <= d <= |t|
    ensures Passes(code, x, t, hi, p, d)
    decreases |t| - d, |code| - p, 1
  {
    hide Inside, Standing, Leaves, Decode, Fits, Through, OneChar, TakesAt, IsLoop, OpLen;
    InsideStands(code, x, y, t, hi, p, d);
    ThroughDead(code, x, t, hi, d);
    if p == hi {
      ThroughHere(code, x, t, hi, d);
    } else {
      match Decode(code, p)
      case Match(n, next) =>
        LeavesMatch(code, x, t, p, d, n, next);
        WordInside(code, p, t, d, n);
        if WordAt(code, p, t, d, n) {
          BlockPaths(code, x, y, t, hi, next, d + n);
          ThroughLater(code, x, t, hi, d, d + n, Leaves(code, x, t, p, d));
        }
      case Take(next) =>
        LeavesTake(code, x, t, p, d, next);
        CharInside(code, p, t, d);
        if TakesAt(code, p, t, d) {
          BlockPaths(code, x, y, t, hi, next, d + 1);
          ThroughLater(code, x, t, hi, d, d + 1, Leaves(code, x, t, p, d));
        }
      case Skip(next) =>
        LeavesSkip(code, x, t, p, d, next);
        BlockPaths(code, x, y, t, hi, next, d);
        assert Leaves(code, x, t, next, d) + [] == Leaves(code, x, t, next, d);
      case Goto(next) =>
        LeavesSkip(code, x, t, p, d, next);
        BlockPaths(code, x, y, t, hi, next, d);
        assert Leaves(code, x, t, next, d) + [] == Leaves(code, x, t, next, d);
      case Dummy(next) =>
        LeavesDummy(code, x, t, p, d, next);
        BlockPaths(code, x, y, t, hi, next, d);
        ThroughAppend(code, x, t, hi, d, Leaves(code, x, t, next, d), [Dead]);
      case Choice(first, second) =>
        LeavesChoice(code, x, t, p, d, first, second);
        BlockPaths(code, x, y, t, hi, first, d);
        BlockPaths(code, x, y, t, hi, second, d);
        ThroughAppend(code, x, t, hi, d, Leaves(code, x, t, first, d), Leaves(code, x, t, second, d));
      case Loop(_) => LoopThrough(code, x, y, t, hi, p, d);
      case PlusLoop(_) => PlusThrough(code, x, y, t, hi, p, d);
      case Count(_) => CountThrough(code, x, y, t, hi, p, d);
    }
  }

  lemma {:induction false} LoopThrough(code: seq<byte>, x: set<int>, y: set<int>, t: seq<byte>, hi: int, p: int, d: int)
    requires Inside(code, x, y, hi) && p in y && p != hi && 0 <= d <= |t| && Fits(code, p) && Decode(code, p).Loop?
    ensures Passes(code, x, t, hi, p, d)
    decreases |t| - d, |code| - p, 0
  {
    hide Inside, Standing, Leaves, Decode, Fits, Through, OneChar, TakesAt, IsLoop, LoopEnd, Pops;
    InsideStands(code, x, y, t, hi, p, d);
    IsALoop(code, x, t, p, d);
    LeavesLoop(code, x, t, p, d);
    var exit := LoopEnd(code, p) + 3;
    BlockPaths(code, x, y, t, hi, exit, d);
    CharInside(code, p + 3, t, d);
    if TakesAt(code, p + 3, t, d) {
      BlockPaths(code, x, y, t, hi, p, d + 1);
      var more := Leaves(code, x, t, p, d + 1);
      ThroughLater(code, x, t, hi, d, d + 1, more);
      if Pops(code, p) {
        assert more + [] == more;
      } else {
        ThroughAppend(code, x, t, hi, d, more, Leaves(code, x, t, exit, d));
      }
    } else {
      ThroughDead(code, x, t, hi, d);
      ThroughAppend(code, x, t, hi, d, [Dead], Leaves(code, x, t, exit, d));
    }
  }

  lemma {:induction false} PlusThrough(code: seq<byte>, x: set<int>, y: set<int>, t: seq<byte>, hi: int, p: int, d: int)
    requires Inside(code, x, y, hi) && p in y && p != hi && 0 <= d <= |t| && Fits(code, p) && Decode(code, p).PlusLoop?
    ensures Passes(code, x, t, hi, p, d)
    decreases |t| - d, |code| - p, 0
  {
    hide Inside, Standing, Leaves, Decode, Fits, Through, OneChar, TakesAt, IsLoop, Pops;
    InsideStands(code, x, y, t, hi, p, d);
    LeavesPlus(code, x, t, p, d);
    ThroughDead(code, x, t, hi, d);
    CharInside(code, p + 6, t, d);
    if TakesAt(code, p + 6, t, d) {
      BlockPaths(code, x, y, t, hi, p + 3, d + 1);
      var more := Leaves(code, x, t, p + 3, d + 1);
      ThroughLater(code, x, t, hi, d, d + 1, more);
      if Pops(code, p + 3) {
        assert more + [] == more;
      } else {
        ThroughAppend(code, x, t, hi, d, more, [Dead]);
      }
    } else {
      ThroughAppend(code, x, t, hi, d, [Dead], [Dead]);
    }
  }

  lemma {:induction false} CountThrough(code: seq<byte>, x: set<int>, y: set<int>, t: seq<byte>, hi: int, p: int, d: int)
    requires Inside(code, x, y, hi) && p in y && p != hi && 0 <= d <= |t| && Fits(code, p) && Decode(code, p).Count?
    ensures Passes(code, x, t, hi, p, d)
    decreases |t| - d, |code| - p, 0
  {
    hide Inside, Standing, Leaves, Decode, Fits, Through, AtCount, CountLeaves, IntervalExit, IsInterval, IntervalLower, LeavesAt, Passes,
      IntervalUpper;
    InsideStands(code, x, y, t, hi, p, d);
    LeavesCount(code, x, t, p, d);
    CountFacts(code, x, t, p, d, 0);
    CountPaths(code, x, t, p, d, 0);
    var exit := IntervalExit(code, p);
    forall d' | d <= d' && Standing(code, x, t, exit, d')
      ensures Passes(code, x, t, hi, exit, d')
    {
      StandingRange(code, x, t, exit, d');
      BlockPaths(code, x, y, t, hi, exit, d');
    }
    ThroughExit(code, x, t, hi, exit, d, d + Due(code, p, 0), CountLeaves(code, x, t, p, d, 0));
    PassesIs(code, x, t, hi, p, d);
  }

  lemma StandingRange(code: seq<byte>, x: set<int>, t: seq<byte>, p: int, d: int)
    requires Standing(code, x, t, p, d)
    ensures 0 <= d <= |t|
  {
    hide Closed;
  }

  lemma PassesIs(code: seq<byte>, x: set<int>, t: seq<byte>, hi: int, p: int, d: int)
    requires Standing(code, x, t, p, d)
    ensures Through(code, x, t, hi, d, Leaves(code, x, t, p, d)) ==> Passes(code, x, t, hi, p, d)
  {
    hide Standing, Leaves, Through;
  }

  // ---- from the end of a pattern to its start, expression by expression ----

  /** What lies behind a place is understood and takes least at last. */
  ghost predicate Behind(code: seq<byte>, z: set<int>, t: seq<byte>, hi: int) {
    Closed(code, z) && hi in z + {|code|} && Lazy(code, z, t, hi)
  }

  lemma LazySame(code: seq<byte>, x: set<int>, z: set<int>, t: seq<byte>, p: int)
    requires Closed(code, x) && p in x + {|code|} && Lazy(code, z, t, p)
    ensures Lazy(code, x, t, p)
  {
    hide Closed, Leaves, Least;
    forall d, d' | 0 <= d <= d' <= |t|
      ensures LeastFrom(code, x, t, p, d, d')
    {
      assert LeastFrom(code, z, t, p, d, d');
      LeavesSame(code, x, z, t, p, d);
      LeavesSame(code, x, z, t, p, d');
    }
  }

  lemma More(code: seq<byte>, y: set<int>, z: set<int>, t: seq<byte>, k: int, hi: int)
    requires Block(code, y, k, hi) && Behind(code, z, t, hi)
    ensures Inside(code, y + z, y, hi) && k in y + z + {|code|} && Behind(code, y + z, t, hi)
  {
    hide WfAt, Span, Lazy;
    forall p | p in y + z
      ensures WfAt(code, p, y + z + {|code|})
    {
      if p in y {
        WfMono(code, p, y + {hi}, y + z + {|code|});
      } else {
        WfMono(code, p, z + {|code|}, y + z + {|code|});
      }
    }
    LazySame(code, y + z, z, t, hi);
  }

  lemma LeastDead(a: seq<Leaf>, b: seq<Leaf>)
    ensures Least([Dead], b) && Least(a + [Dead], b) && (|a| > 0 ==> Least(a, [Dead]) && Least(a, [Dead] + [Dead]))
  {
    hide Reaches;
    LastAppend(a, [Dead]);
    forall e
      ensures !Reaches([Dead], e) && !Reaches([Dead] + [Dead], e)
    {
      NoLeaf(e);
      ReachesAppend([Dead], [Dead], e);
    }
  }

  lemma LeastTwice(a: seq<Leaf>, b: seq<Leaf>)
    requires |a| > 0 && Least(a, b)
    ensures Least(a + a, b + b)
  {
    hide Reaches;
    LastAppend(a, a);
    forall e
      ensures Reaches(b + b, e) <==> Reaches(b, e)
    {
      ReachesAppend(b, b, e);
    }
  }

  /** A command that only leads to what is behind it. */
  lemma OneLeast(code: seq<byte>, x: set<int>, t: seq<byte>, k: int, hi: int, d: int, d': int)
    requires Inside(code, x, {k}, hi) && Lazy(code, x, t, hi) && 0 <= d <= d' <= |t|
    ensures LeastFrom(code, x, t, k, d, d')
  {
    hide Inside, Standing, Leaves, Decode, Fits, OneChar, TakesAt, IsLoop, IsInterval, OpLen, Lazy, Least, WordAt, LoopEnd, IntervalExit;
    BlockEnd(code, x, {k}, hi, k);
    InsideStands(code, x, {k}, t, hi, k, d);
    InsideStands(code, x, {k}, t, hi, k, d');
    LazyAt(code, x, t, hi, d, d');
    match Decode(code, k)
    case Match(n, next) => MatchLeast(code, x, t, k, d, d', n, next);
    case Take(next) => TakeLeast(code, x, t, k, d, d', next);
    case Skip(next) => SkipLeast(code, x, t, k, d, d', next);
    case Goto(next) => SkipLeast(code, x, t, k, d, d', next);
    case Dummy(next) =>
      LeavesDummy(code, x, t, k, d, next);
      LeastDead(Leaves(code, x, t, next, d), Leaves(code, x, t, k, d'));
    case Choice(first, second) =>
      LeavesChoice(code, x, t, k, d, first, second);
      LeavesChoice(code, x, t, k, d', first, second);
      LeastTwice(Leaves(code, x, t, hi, d), Leaves(code, x, t, hi, d'));
    case Loop(exit) =>
      IsALoop(code, x, t, k, d);
      LoopLeast(code, x, t, k, d, d');
    case Count(exit) =>
      LeavesCount(code, x, t, k, d);
      CountFacts(code, x, t, k, d, 0);
      CountLeast(code, x, t, k, d, d');
  }

  lemma BlockEnd(code: seq<byte>, x: set<int>, y: set<int>, hi: int, p: int)
    requires Inside(code, x, y, hi) && p in y
    ensures p != hi
  {
    hide WfAt, Closed;
  }

  lemma LazyAt(code: seq<byte>, x: set<int>, t: seq<byte>, p: int, d: int, d': int)
    requires Lazy(code, x, t, p) && 0 <= d <= d' <= |t|
    ensures LeastFrom(code, x, t, p, d, d')
  {
    hide LeastFrom;
  }

  lemma MatchLeast(code: seq<byte>, x: set<int>, t: seq<byte>, k: int, d: int, d': int, n: nat, next: int)
    requires Standing(code, x, t, k, d) && Standing(code, x, t, k, d') && k in x && Fits(code, k) && 0 <= d <= d' <= |t|
    requires Decode(code, k) == Match(n, next) && Lazy(code, x, t, next)
    ensures LeastFrom(code, x, t, k, d, d')
  {
    hide Standing, Leaves, Decode, Fits, Lazy, Least, WordAt;
    LeavesMatch(code, x, t, k, d, n, next);
    LeavesMatch(code, x, t, k, d', n, next);
    WordInside(code, k, t, d', n);
    LeastDead([], Leaves(code, x, t, k, d'));
    LeastDead(Leaves(code, x, t, k, d), []);
    if WordAt(code, k, t, d, n) && WordAt(code, k, t, d', n) {
      LazyAt(code, x, t, next, d + n, d' + n);
    }
  }

  lemma TakeLeast(code: seq<byte>, x: set<int>, t: seq<byte>, k: int, d: int, d': int, next: int)
    requires Standing(code, x, t, k, d) && Standing(code, x, t, k, d') && k in x && Fits(code, k) && 0 <= d <= d' <= |t|
    requires Decode(code, k) == Take(next) && Lazy(code, x, t, next)
    ensures LeastFrom(code, x, t, k, d, d')
  {
    hide Standing, Leaves, Decode, Fits, Lazy, Least, TakesAt, OneChar;
    LeavesTake(code, x, t, k, d, next);
    LeavesTake(code, x, t, k, d', next);
    CharInside(code, k, t, d');
    LeastDead([], Leaves(code, x, t, k, d'));
    LeastDead(Leaves(code, x, t, k, d), []);
    if TakesAt(code, k, t, d) && TakesAt(code, k, t, d') {
      LazyAt(code, x, t, next, d + 1, d' + 1);
    }
  }

  lemma SkipLeast(code: seq<byte>, x: set<int>, t: seq<byte>, k: int, d: int, d': int, next: int)
    requires Standing(code, x, t, k, d) && Standing(code, x, t, k, d') && k in x && Fits(code, k)
    requires (Decode(code, k) == Skip(next) || Decode(code, k) == Goto(next)) && LeastFrom(code, x, t, next, d, d')
    ensures LeastFrom(code, x, t, k, d, d')
  {
    hide Standing, Leaves, Decode, Fits, Least;
    LeavesSkip(code, x, t, k, d, next);
    LeavesSkip(code, x, t, k, d', next);
    assert Leaves(code, x, t, next, d) + [] == Leaves(code, x, t, next, d);
    assert Leaves(code, x, t, next, d') + [] == Leaves(code, x, t, next, d');
  }

  lemma LoopLeast(code: seq<byte>, x: set<int>, t: seq<byte>, q: int, d: int, d': int)
    requires Standing(code, x, t, q, d) && Standing(code, x, t, q, d') && 0 <= d <= d' <= |t| && q in x && IsLoop(code, q)
    requires Lazy(code, x, t, LoopEnd(code, q) + 3)
    ensures LeastFrom(code, x, t, q, d, d')
  {
    hide Standing, Leaves, IsLoop, LoopEnd, Lazy, Least, LastAt, EndsFrom, Exits;
    LoopPaths(code, x, t, q, d);
    LoopPaths(code, x, t, q, d');
    ExitsLater(code, q, t, d, d');
    LazyFrom(code, x, t, LoopEnd(code, q) + 3, Exits(code, q, t, d), Exits(code, q, t, d'), Leaves(code, x, t, q, d), Leaves(code, x, t, q, d'));
  }

  lemma CountLeast(code: seq<byte>, x: set<int>, t: seq<byte>, p: int, d: int, d': int)
    requires Standing(code, x, t, p, d) && Standing(code, x, t, p, d') && 0 <= d <= d' && p in x && Fits(code, p)
    requires Decode(code, p).Count? && IsInterval(code, p) && Lazy(code, x, t, IntervalExit(code, p))
    ensures LeastFrom(code, x, t, p, d, d')
  {
    hide Standing, Leaves, Decode, Fits, AtCount, IsInterval, IntervalExit, IntervalUpper, Lazy, Least, LastAt, EndsFrom, Due, CountLeaves;
    LeavesCount(code, x, t, p, d);
    LeavesCount(code, x, t, p, d');
    CountPaths(code, x, t, p, d, 0);
    CountPaths(code, x, t, p, d', 0);
    var n := Due(code, p, 0);
    LazyFrom(code, x, t, IntervalExit(code, p), d + n, d' + n, Leaves(code, x, t, p, d), Leaves(code, x, t, p, d'));
  }

  lemma OneBehind(code: seq<byte>, k: int, hi: int, z: set<int>, t: seq<byte>)
    requires Block(code, {k}, k, hi) && Behind(code, z, t, hi)
    ensures Behind(code, {k} + z, t, k)
  {
    hide Block, Closed, Inside, LeastFrom, WfAt;
    More(code, {k}, z, t, k, hi);
    var x := {k} + z;
    forall d, d' | 0 <= d <= d' <= |t|
      ensures LeastFrom(code, x, t, k, d, d')
    {
      OneLeast(code, x, t, k, hi, d, d');
    }
  }

  /** `?` after a block: what is tried last is to do without it. */
  lemma ChoiceBehind(code: seq<byte>, y: set<int>, k: int, hi: int, z: set<int>, t: seq<byte>)
    requires Block(code, y, k + 3, hi) && Behind(code, z, t, hi)
    requires 0 <= k && k + 3 <= |code| && code[k] == ON_FAILURE_JUMP && Target(code, k) == hi
    ensures Behind(code, {k} + y + z, t, k)
  {
    hide Block, Closed, Inside, LeastFrom, IsLoop, Target, Lazy;
    ChoiceBlock(code, y, k, hi);
    More(code, {k} + y, z, t, k, hi);
    More(code, y, z, t, k + 3, hi);
    BlockStart(code, y, k + 3, hi);
    var x := {k} + y + z;
    InsideMore(code, y + z, y, hi, x);
    forall d, d' | 0 <= d <= d' <= |t|
      ensures LeastFrom(code, x, t, k, d, d')
    {
      ChoiceLeast(code, x, y, t, k, hi, d, d');
    }
    LazyAll(code, x, t, k);
  }

  lemma LazyAll(code: seq<byte>, x: set<int>, t: seq<byte>, p: int)
    requires forall d, d' :: 0 <= d <= d' <= |t| ==> LeastFrom(code, x, t, p, d, d')
    ensures Lazy(code, x, t, p)
  {
    hide LeastFrom;
  }

  lemma InsideMore(code: seq<byte>, x: set<int>, y: set<int>, hi: int, x': set<int>)
    requires Inside(code, x, y, hi) && Closed(code, x') && x <= x'
    ensures Inside(code, x', y, hi)
  {
    hide Closed, WfAt;
  }

  lemma DecodeChoice(code: seq<byte>, k: int)
    requires 0 <= k && k + 3 <= |code| && code[k] == ON_FAILURE_JUMP && !IsLoop(code, k)
    ensures Fits(code, k) && Decode(code, k) == Choice(k + 3, Target(code, k))
  {
    hide IsLoop, IsInterval, Extract;
  }

  lemma ChoiceLeast(code: seq<byte>, x: set<int>, y: set<int>, t: seq<byte>, k: int, hi: int, d: int, d': int)
    requires Closed(code, x) && k in x && 0 <= k && k + 3 <= |code| && code[k] == ON_FAILURE_JUMP && !IsLoop(code, k)
    requires Target(code, k) == hi && Inside(code, x, y, hi) && k + 3 in y + {hi} && Lazy(code, x, t, hi) && 0 <= d <= d' <= |t|
    ensures LeastFrom(code, x, t, k, d, d')
  {
    hide Closed, IsLoop, Target, Inside, Lazy, Leaves, Decode, Fits, Least, LastAt, EndsFrom, LastFrom, Last;
    DecodeChoice(code, k);
    LeavesChoice(code, x, t, k, d, k + 3, hi);
    LeavesChoice(code, x, t, k, d', k + 3, hi);
    BlockPaths(code, x, y, t, hi, k + 3, d');
    var a, b := Leaves(code, x, t, k + 3, d), Leaves(code, x, t, k + 3, d');
    LeavesAtAppend(code, x, t, hi, d', d', b);
    LastIs(code, x, t, hi, d, a);
    LazyFrom(code, x, t, hi, d, d', a + Leaves(code, x, t, hi, d), b + Leaves(code, x, t, hi, d'));
  }

  lemma LastIs(code: seq<byte>, x: set<int>, t: seq<byte>, hi: int, d: int, a: seq<Leaf>)
    requires Standing(code, x, t, hi, d)
    ensures LastAt(code, x, t, hi, d, a + Leaves(code, x, t, hi, d))
  {
    hide Standing, Leaves, Last;
    LastAppend(a, Leaves(code, x, t, hi, d));
  }

  /** `+`: a loop entered behind its on_failure_jump. */
  lemma PlusBehind(code: seq<byte>, k: int, z: set<int>, t: seq<byte>)
    requires 0 <= k && k + 3 <= |code| && code[k] == DUMMY_FAILURE_JUMP && Target(code, k) == k + 6
    requires IsLoop(code, k + 3) && k + 3 in z && Behind(code, z, t, k + 3)
    ensures Behind(code, {k} + z, t, k)
  {
    hide Closed, Lazy, IsLoop, LeastFrom, Target, LoopEnd, WfAt;
    var x := {k} + z;
    LoopExit(code, z, k + 3);
    WfPlus(code, k, {k} + z + {|code|});
    ClosedMore(code, k, z);
    LazySame(code, x, z, t, k + 3);
    forall d, d' | 0 <= d <= d' <= |t|
      ensures LeastFrom(code, x, t, k, d, d')
    {
      PlusLeast(code, x, t, k, d, d');
    }
    LazyAll(code, x, t, k);
  }

  lemma WfPlus(code: seq<byte>, k: int, y: set<int>)
    requires 0 <= k && k + 3 <= |code| && code[k] == DUMMY_FAILURE_JUMP && Target(code, k) == k + 6
    requires IsLoop(code, k + 3) && k + 3 in y && LoopEnd(code, k + 3) + 3 in y
    ensures WfAt(code, k, y)
  {
    hide IsLoop, LoopEnd, Extract, Target;
  }

  lemma ClosedMore(code: seq<byte>, k: int, z: set<int>)
    requires Closed(code, z) && WfAt(code, k, {k} + z + {|code|})
    ensures Closed(code, {k} + z)
  {
    hide WfAt;
    forall p | p in {k} + z
      ensures WfAt(code, p, {k} + z + {|code|})
    {
      if p in z {
        WfMono(code, p, z + {|code|}, {k} + z + {|code|});
      }
    }
  }

  lemma DecodePlus(code: seq<byte>, k: int)
    requires 0 <= k && k + 3 <= |code| && code[k] == DUMMY_FAILURE_JUMP && IsLoop(code, k + 3)
    ensures Fits(code, k) && Decode(code, k).PlusLoop?
  {
    hide IsLoop;
  }

  lemma PlusLeast(code: seq<byte>, x: set<int>, t: seq<byte>, k: int, d: int, d': int)
    requires Closed(code, x) && k in x && 0 <= k && k + 3 <= |code| && code[k] == DUMMY_FAILURE_JUMP && IsLoop(code, k + 3)
    requires Lazy(code, x, t, k + 3) && 0 <= d <= d' <= |t|
    ensures LeastFrom(code, x, t, k, d, d')
  {
    hide Closed, IsLoop, Lazy, Leaves, Decode, Fits, Least, OneChar, TakesAt, Pops;
    DecodePlus(code, k);
    LeavesPlus(code, x, t, k, d);
    LeavesPlus(code, x, t, k, d');
    var q := k + 3;
    var a, b := Leaves(code, x, t, k, d), Leaves(code, x, t, k, d');
    CharInside(code, q + 3, t, d);
    CharInside(code, q + 3, t, d');
    LeastDead([Dead], b);
    LeastDead(a, b);
    if TakesAt(code, q + 3, t, d) {
      var more := Leaves(code, x, t, q, d + 1);
      LeastDead(more, b);
      if Pops(code, q) && TakesAt(code, q + 3, t, d') {
        LazyAt(code, x, t, q, d + 1, d' + 1);
        assert more + [] == more && Leaves(code, x, t, q, d' + 1) + [] == Leaves(code, x, t, q, d' + 1);
      }
    }
  }

  // ---- expressions ----

  lemma {:induction false} NodeBehind(n: Node, g: nat, code: seq<byte>, k: int, z: set<int>, t: seq<byte>) returns (x: set<int>)
    requires Compilable(n) && SimpleLoops(n) && At(code, k, CodeNode(n, g)) && |code| < 32768
    requires Behind(code, z, t, k + |CodeNode(n, g)|)
    ensures Behind(code, x, t, k)
    decreases n, 0
  {
    hide Block, Behind, At, CodeNode, CodeGroup, CodeAlts, Compilable, SimpleLoops, SimpleLoopsAlts, CompilableAlts;
    match n
    case Exact(lits) => x := LeafBehind(n, g, code, k, z, t);
    case AnyChar => x := LeafBehind(n, g, code, k, z, t);
    case CharSet(_, _) => x := LeafBehind(n, g, code, k, z, t);
    case Interval(_, _, _) => x := LeafBehind(n, g, code, k, z, t);
    case Group(alts) =>
      GroupIs(alts, g);
      x := GroupBehind(alts, g, code, k, z, t);
    case Repeat(operand, ops) => x := RepeatBehind(operand, ops, g, code, k, z, t);
    case Skipped(ops) =>
      SkippedIs(ops, g);
      x := z;
    case Stray =>
      StrayAt(code, k, g);
      SingleSkip(code, k);
      OneBehind(code, k, k + 1, z, t);
      x := {k} + z;
  }

  lemma SkippedIs(ops: seq<RepeatOp>, g: nat)
    ensures CodeNode(Skipped(ops), g) == []
  {}

  lemma GroupIs(alts: seq<Branch>, g: nat)
    requires Compilable(Group(alts)) && SimpleLoops(Group(alts))
    ensures CodeNode(Group(alts), g) == CodeGroup(alts, g) && |alts| > 0 && CompilableAlts(alts) && SimpleLoopsAlts(alts)
  {
    hide CodeGroup, CompilableAlts, SimpleLoopsAlts;
  }

  lemma SingleSkip(code: seq<byte>, p: int)
    requires Fits(code, p) && (code[p] == START_MEMORY || code[p] == STOP_MEMORY || code[p] == PUSH_DUMMY_FAILURE)
    ensures Block(code, {p}, p, p + OpLen(code, p))
    ensures OpLen(code, p) == if code[p] == PUSH_DUMMY_FAILURE then 1 else 3
  {
    SkipBlock(code, p);
  }

  lemma LeafBehind(n: Node, g: nat, code: seq<byte>, k: int, z: set<int>, t: seq<byte>) returns (x: set<int>)
    requires n.Exact? || n.AnyChar? || n.CharSet? || (n.Interval? && SimpleLoops(n))
    requires Compilable(n) && At(code, k, CodeNode(n, g)) && |code| < 32768
    requires Behind(code, z, t, k + |CodeNode(n, g)|)
    ensures Behind(code, x, t, k)
  {
    hide CodeNode, At, Compilable, Behind, WfAt, Span, UpperOf, Block;
    LeafEntry(n, g, code, k);
    SingleBlock(code, k, k + |CodeNode(n, g)|);
    OneBehind(code, k, k + |CodeNode(n, g)|, z, t);
    x := {k} + z;
  }

  lemma {:induction false} BranchBehind(b: seq<Node>, g: nat, code: seq<byte>, k: int, z: set<int>, t: seq<byte>) returns (x: set<int>)
    requires CompilableBranch(b) && SimpleLoopsBranch(b) && At(code, k, CodeBranch(b, g)) && |code| < 32768
    requires Behind(code, z, t, k + |CodeBranch(b, g)|)
    ensures Behind(code, x, t, k)
    decreases b, 0
  {
    hide Behind, CodeBranch, CodeNode, GroupsBranch, Compilable, SimpleLoops, At;
    if |b| == 0 {
      EmptyBlock(b, g, code, k);
      x := z;
    } else {
      var init, last := b[..|b| - 1], b[|b| - 1];
      var h := g + GroupsBranch(init);
      var mid := k + |CodeBranch(init, g)|;
      BranchUnfold(b, g);
      AtSplit(code, k, CodeBranch(init, g), CodeNode(last, h));
      x := NodeBehind(last, h, code, mid, z, t);
      x := BranchBehind(init, g, code, k, x, t);
    }
  }

  lemma {:induction false} RepeatBehind(n: Node, ops: seq<RepeatOp>, g: nat, code: seq<byte>, k: int, z: set<int>, t: seq<byte>)
    returns (x: set<int>)
    requires Compilable(Repeat(n, ops)) && SimpleLoops(Repeat(n, ops)) && At(code, k, CodeNode(Repeat(n, ops), g)) && |code| < 32768
    requires Behind(code, z, t, k + |CodeNode(Repeat(n, ops), g)|)
    ensures Behind(code, x, t, k)
  {
    hide Behind, IsLoop, RepeatCode, Block, Extract, CodeNode, Compilable, SimpleLoops, ZeroOk, ManyOk, LoopEnd;
    RepeatIs(n, ops);
    var zero, many, c := ZeroOk(ops), ManyOk(ops), CodeNode(n, g);
    RepeatUnfold(n, ops, g);
    RepeatLayout(c, zero, many, code, k);
    var hi := k + |RepeatCode(c, zero, many)|;
    if many {
      var q := k + if zero then 0 else 3;
      CharMeaning(n, g, code, q + 3, [], 0, 0);
      LoopIs(code, q, hi);
      LoopBlock(code, q, hi);
      OneBehind(code, q, hi, z, t);
      x := {q} + z;
      if !zero {
        PlusBehind(code, k, x, t);
        x := {k} + x;
      }
    } else {
      var y := NodeBlock(n, g, code, k + 3);
      ChoiceBehind(code, y, k, hi, z, t);
      x := {k} + y + z;
    }
  }

  lemma RepeatIs(n: Node, ops: seq<RepeatOp>)
    requires Compilable(Repeat(n, ops)) && SimpleLoops(Repeat(n, ops))
    ensures Compilable(n) && SimpleLoops(n) && |ops| > 0 && (ManyOk(ops) ==> CharNode(n))
  {
    hide ManyOk;
  }

  lemma {:induction false} GroupBehind(alts: seq<Branch>, g: nat, code: seq<byte>, k: int, z: set<int>, t: seq<byte>) returns (x: set<int>)
    requires |alts| > 0 && CompilableAlts(alts) && SimpleLoopsAlts(alts) && At(code, k, CodeGroup(alts, g)) && |code| < 32768
    requires Behind(code, z, t, k + |CodeGroup(alts, g)|)
    ensures Behind(code, x, t, k)
    decreases alts, 1
  {
    hide CodeAlts, CodeGroup, Block, At, Behind, CompilableBranch, SimpleLoopsBranch, CodeBranch;
    GroupLayout(alts, g, code, k);
    var n := GroupStart(g, k);
    var s := n + |CodeAlts(alts, g + 1)|;
    x := z;
    if g + 1 <= MAX_REGNUM {
      var stop := s + if |alts| > 1 then 1 else 0;
      SingleSkip(code, stop);
      OneBehind(code, stop, stop + 3, x, t);
      x := {stop} + x;
    }
    if |alts| > 1 {
      SingleSkip(code, s);
      OneBehind(code, s, s + 1, x, t);
      x := {s} + x;
      var y := AltsBlock(alts, g + 1, code, n);
      DummyBehind(code, y, n, s, x, t);
      x := y + x;
    } else {
      OneAlt(alts, g + 1);
      x := BranchBehind(alts[0].nodes, g + 1, code, n, x, t);
    }
    if g + 1 <= MAX_REGNUM {
      SingleSkip(code, k);
      OneBehind(code, k, n, x, t);
      x := {k} + x;
    }
  }

  /** Alternatives in brackets: a dummy failure point behind them is what is popped last. */
  lemma DummyBehind(code: seq<byte>, y: set<int>, k: int, s: int, z: set<int>, t: seq<byte>)
    requires Block(code, y, k, s) && Behind(code, z, t, s) && s in z && Fits(code, s) && code[s] == PUSH_DUMMY_FAILURE
    ensures Behind(code, y + z, t, k)
  {
    hide Block, Closed, Lazy, Inside, LeastFrom, Fits;
    More(code, y, z, t, k, s);
    BlockStart(code, y, k, s);
    var x := y + z;
    forall d, d' | 0 <= d <= d' <= |t|
      ensures LeastFrom(code, x, t, k, d, d')
    {
      DummyLeast(code, x, y, t, k, s, d, d');
    }
    LazyAll(code, x, t, k);
  }

  lemma DummyLeast(code: seq<byte>, x: set<int>, y: set<int>, t: seq<byte>, k: int, s: int, d: int, d': int)
    requires Inside(code, x, y, s) && k in y + {s} && s in x && Fits(code, s) && code[s] == PUSH_DUMMY_FAILURE && 0 <= d <= d' <= |t|
    ensures LeastFrom(code, x, t, k, d, d')
  {
    hide Inside, Standing, Leaves, EndsFrom, Last, Fits, Reaches;
    BlockPaths(code, x, y, t, s, k, d);
    InsideStands(code, x, y, t, s, k, d');
    forall d'' | Standing(code, x, t, s, d'')
      ensures Last(Leaves(code, x, t, s, d'')) == Dead
    {
      DummyLast(code, x, t, s, d'');
    }
  }

  lemma BlockStart(code: seq<byte>, y: set<int>, k: int, s: int)
    requires Block(code, y, k, s)
    ensures k in y + {s}
  {
    hide WfAt, Span;
  }

  lemma DummyLast(code: seq<byte>, x: set<int>, t: seq<byte>, s: int, d: int)
    requires Standing(code, x, t, s, d) && s in x && Fits(code, s) && code[s] == PUSH_DUMMY_FAILURE
    ensures Last(Leaves(code, x, t, s, d)) == Dead
  {
    hide Standing, Leaves, Decode, Fits;
    InProgram(code, s);
    DecodeDummy(code, s);
    LeavesDummy(code, x, t, s, d, s + 1);
  }

  lemma DecodeDummy(code: seq<byte>, s: int)
    requires Fits(code, s) && code[s] == PUSH_DUMMY_FAILURE
    ensures Decode(code, s) == Dummy(s + 1)
  {}

  // ---- whole patterns ----

  /** At the end of the pattern nothing is left to try. */
  lemma EndBehind(code: seq<byte>, t: seq<byte>)
    ensures Behind(code, {}, t, |code|)
  {
    hide Reaches, Leaves;
    forall d, d' | 0 <= d <= d' <= |t|
      ensures LeastFrom(code, {}, t, |code|, d, d')
    {
      LeavesEnd(code, {}, t, d);
      LeavesEnd(code, {}, t, d');
      forall e
        ensures Reaches([End(d')], e) ==> e == d'
      {
        OneLeaf(d', e);
      }
    }
  }

  /** In a pattern without a bare `|` the path tried last ends no later than any other. */
  lemma OneAlternative(alts: seq<Branch>, x: set<int>, t: seq<byte>, d: int)
    requires |alts| == 1 && CompilableAlts(alts) && SimpleLoopsAlts(alts) && |CodeAlts(alts, 0)| < 32768
    requires Closed(CodeAlts(alts, 0), x) && 0 in x + {|CodeAlts(alts, 0)|} && 0 <= d <= |t|
    ensures LeastFrom(CodeAlts(alts, 0), x, t, 0, d, d)
  {
    hide Closed, CodeAlts, CodeBranch, CompilableBranch, SimpleLoopsBranch, Lazy, LeastFrom, At;
    var code := CodeAlts(alts, 0);
    WholeCode(code);
    OneAlt(alts, 0);
    EndBehind(code, t);
    var z := BranchBehind(alts[0].nodes, 0, code, 0, {}, t);
    LazySame(code, x, z, t, 0);
    LazyAt(code, x, t, 0, d, d);
  }

  /** When the path tried last ends no later than any other, the result is the longest match. */
  lemma LeastLongest(code: seq<byte>, x: set<int>, t: seq<byte>, pos: int)
    requires WfProgram(code, x) && Closed(code, x) && TestsRight(code, x) && 0 <= pos <= |t| && 0 in x + {|code|}
    requires LeastFrom(code, x, t, 0, pos, pos)
    ensures forall e :: Accepts(code, t, Thread(0, pos), e) ==> e <= Outcome(Trace(code, x, t, 0, pos), |t|)
  {
    hide Accepts, Step, Closed, TestsRight, WfProgram, Trace, Outcome, Reaches, Least, Best;
    LongestIff(code, x, t, pos);
    var tr := Trace(code, x, t, 0, pos);
    forall k | 0 <= k < |tr| && tr[k].End?
      ensures 0 <= tr[k].e
    {
      LeafReached(tr, k);
      LeafAccepted(code, x, t, pos, tr[k].e);
    }
    LeastBest(tr);
  }

  lemma LeafReached(tr: seq<Leaf>, k: int)
    requires 0 <= k < |tr| && tr[k].End?
    ensures Reaches(tr, tr[k].e)
  {}

  lemma LeastBest(tr: seq<Leaf>)
    requires |tr| > 0 && Least(tr, tr) && forall k :: 0 <= k < |tr| && tr[k].End? ==> 0 <= tr[k].e
    ensures var last := tr[|tr| - 1]; !(last.End? && 0 <= Best(tr[..|tr| - 1]) < last.e)
  {
    hide Best;
    var init := tr[..|tr| - 1];
    BestIs(init);
    if Best(init) >= 0 {
      LastLeaf(tr, Best(init));
    }
  }
}
