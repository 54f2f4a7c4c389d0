/** No character is in the fastmap without reason. */
module FastmapTight {
  import opened Bytes
  import opened Opcodes
  import opened Machine
  import opened WellFormed
  import opened Traces
  import opened MatchSpec
  import opened FastmapSpec

  // ---- characters in front of a text change nothing behind them ----

  function Moved(a: Thread, s: nat): Thread {
    Thread(a.p, a.d + s)
  }

  lemma CharsMoved(code: seq<byte>, pre: seq<byte>, t: seq<byte>, a: Thread, b: Thread)
    requires Step(code, t, a, b) && code[a.p] == EXACTN
    ensures Step(code, pre + t, Moved(a, |pre|), Moved(b, |pre|))
  {
    hide Extract, OneChar, IsInterval, Takes;
    var u, s, n := pre + t, |pre|, code[a.p + 1];
    assert u[a.d + s..a.d + s + n] == t[a.d..a.d + n];
  }

  lemma CharMoved(code: seq<byte>, pre: seq<byte>, t: seq<byte>, a: Thread, b: Thread)
    requires Step(code, t, a, b) && code[a.p] in {ANYCHAR, CHARSET, CHARSET_NOT}
    ensures Step(code, pre + t, Moved(a, |pre|), Moved(b, |pre|))
  {
    hide Extract, OneChar, IsInterval, Takes, OpLen;
    assert (pre + t)[a.d + |pre|] == t[a.d];
  }

  lemma CountMoved(code: seq<byte>, pre: seq<byte>, t: seq<byte>, a: Thread, b: Thread)
    requires Step(code, t, a, b) && code[a.p] == SET_NUMBER_AT
    ensures Step(code, pre + t, Moved(a, |pre|), Moved(b, |pre|))
  {
    assert IsInterval(code, a.p) && 0 <= a.d <= |t|;
    hide Step, Extract, OneChar, IsInterval, IntervalLower, IntervalUpper, IntervalBody, IntervalExit, Takes, TakesRun;
    StepIntervalAt(code, t, a, b);
    var k: nat :| IntervalLower(code, a.p) <= k <= IntervalUpper(code, a.p) &&
      TakesRun(code, IntervalBody(code, a.p), t, a.d, k) && b == Thread(IntervalExit(code, a.p), a.d + k);
    RunOfMoved(code, IntervalBody(code, a.p), pre, t, a.d, k);
    StepIntervalAt(code, pre + t, Moved(a, |pre|), Moved(b, |pre|));
  }

  lemma StepMoved(code: seq<byte>, pre: seq<byte>, t: seq<byte>, a: Thread, b: Thread)
    requires Step(code, t, a, b)
    ensures Step(code, pre + t, Moved(a, |pre|), Moved(b, |pre|))
  {
    hide Extract, OneChar, IsInterval, Takes, TakesRun, OpLen;
    if code[a.p] == EXACTN {
      CharsMoved(code, pre, t, a, b);
    } else if code[a.p] in {ANYCHAR, CHARSET, CHARSET_NOT} {
      CharMoved(code, pre, t, a, b);
    } else if code[a.p] == SET_NUMBER_AT {
      CountMoved(code, pre, t, a, b);
    }
  }

  lemma RunOfMoved(code: seq<byte>, q: int, pre: seq<byte>, t: seq<byte>, d: int, k: nat)
    requires OneChar(code, q) && TakesRun(code, q, t, d, k)
    ensures TakesRun(code, q, pre + t, d + |pre|, k)
  {
    hide Takes, OneChar;
    forall x | d + |pre| <= x < d + |pre| + k
      ensures Takes(code, q, (pre + t)[x])
    {
      assert (pre + t)[x] == t[x - |pre|];
    }
  }

  lemma {:induction false} RunMoved(code: seq<byte>, pre: seq<byte>, t: seq<byte>, a: Thread, n: nat, e: int)
    requires Run(code, t, a, n, e)
    ensures Run(code, pre + t, Moved(a, |pre|), n, e + |pre|)
    decreases n
  {
    hide Step;
    if !(a == Thread(|code|, e) && 0 <= e <= |t|) {
      var b :| Step(code, t, a, b) && Run(code, t, b, n - 1, e);
      StepMoved(code, pre, t, a, b);
      RunMoved(code, pre, t, b, n - 1, e);
    }
  }

  lemma AcceptsMoved(code: seq<byte>, pre: seq<byte>, t: seq<byte>, p: int, d: int, e: int)
    requires Accepts(code, t, Thread(p, d), e)
    ensures Accepts(code, pre + t, Thread(p, d + |pre|), e + |pre|)
  {
    hide Run;
    var n: nat :| Run(code, t, Thread(p, d), n, e);
    RunMoved(code, pre, t, Thread(p, d), n, e);
  }

  // ---- from every command the end can be reached ----

  lemma LoopBody(code: seq<byte>, p: int)
    requires IsLoop(code, p)
    ensures OneChar(code, p + 3)
  {}

  /** The command at `q` takes some character, if it has to take one. */
  ghost predicate Live(code: seq<byte>, x: set<int>, q: int)
    requires Closed(code, x) && q in x
  {
    hide Closed, Decode, Extract, IsLoop, IsInterval, Takes;
    DecodeLeads(code, x, q);
    StartsOk(code, x, q);
    match Decode(code, q)
    case Take(_) => exists c: byte :: Takes(code, q, c)
    case PlusLoop(_) =>
      LoopBody(code, q + 3);
      var b := q + 6;
      exists c: byte :: Takes(code, b, c)
    case Count(_) => exists c: byte :: Takes(code, IntervalBody(code, q), c)
    case _ => true
  }

  ghost predicate AllLive(code: seq<byte>, x: set<int>)
    requires Closed(code, x)
  {
    forall q :: q in x ==> Live(code, x, q)
  }

  /** Characters for the command at `p`, and a text for what comes behind it. */
  lemma CharThen(code: seq<byte>, p: int, c: byte, t: seq<byte>, e: int) returns (u: seq<byte>)
    requires OneChar(code, p) && Takes(code, p, c) && Accepts(code, t, Thread(p + OpLen(code, p), 0), e)
    ensures u == [c] + t && Accepts(code, u, Thread(p, 0), e + 1)
  {
    hide Accepts, Takes, OpLen;
    u := [c] + t;
    AcceptsMoved(code, [c], t, p + OpLen(code, p), 0, e);
    AcceptsOneChar(code, u, p, 0, e + 1);
  }

  lemma CharsThen(code: seq<byte>, p: int, t: seq<byte>, e: int) returns (u: seq<byte>)
    requires Fits(code, p) && code[p] == EXACTN && code[p + 1] >= 1 && Accepts(code, t, Thread(p + 2 + code[p + 1], 0), e)
    ensures |u| > 0 && u[0] == code[p + 2] && Accepts(code, u, Thread(p, 0), e + code[p + 1])
  {
    hide Accepts;
    var n := code[p + 1];
    var pre := code[p + 2..p + 2 + n];
    u := pre + t;
    AcceptsMoved(code, pre, t, p + 2 + n, 0, e);
    assert u[0..0 + n] == pre;
    AcceptsExactn(code, u, p, 0, e + n);
  }

  /** Once more around a loop. */
  lemma OnceThen(code: seq<byte>, p: int, c: byte, t: seq<byte>, e: int) returns (u: seq<byte>)
    requires IsLoop(code, p) && Takes(code, p + 3, c) && Accepts(code, t, Thread(p, 0), e)
    ensures u == [c] + t && Accepts(code, u, Thread(p, 0), e + 1) && Accepts(code, u, Thread(p + 3, 0), e + 1)
  {
    hide Accepts, Takes, Extract;
    u := [c] + t;
    AcceptsMoved(code, [c], t, p, 0, e);
    LoopMoves(code, u, p, 0, e + 1);
  }

  lemma PlusThen(code: seq<byte>, p: int, c: byte, t: seq<byte>, e: int) returns (u: seq<byte>)
    requires Fits(code, p) && code[p] == DUMMY_FAILURE_JUMP && Target(code, p) == p + 6 && IsLoop(code, p + 3)
    requires Takes(code, p + 6, c) && Accepts(code, t, Thread(p + 3, 0), e)
    ensures u == [c] + t && Accepts(code, u, Thread(p, 0), e + 1)
  {
    hide Accepts, Takes, Extract, IsLoop;
    u := OnceThen(code, p + 3, c, t, e);
    AcceptsJump(code, u, p, 0, e + 1);
  }

  lemma SkipsLoop(code: seq<byte>, p: int, t: seq<byte>, e: int)
    requires IsLoop(code, p) && Accepts(code, t, Thread(LoopEnd(code, p) + 3, 0), e)
    ensures Accepts(code, t, Thread(p, 0), e)
  {
    hide Accepts, Extract;
    LoopMoves(code, t, p, 0, e);
  }

  function Times(c: byte, k: nat): (s: seq<byte>)
    ensures |s| == k && forall i :: 0 <= i < k ==> s[i] == c
  {
    if k == 0 then [] else [c] + Times(c, k - 1)
  }

  lemma CountThen(code: seq<byte>, p: int, c: byte, k: nat, t: seq<byte>, e: int) returns (u: seq<byte>)
    requires IsInterval(code, p) && IntervalLower(code, p) <= k <= IntervalUpper(code, p)
    requires k > 0 ==> Takes(code, IntervalBody(code, p), c)
    requires Accepts(code, t, Thread(IntervalExit(code, p), 0), e)
    ensures u == Times(c, k) + t && Accepts(code, u, Thread(p, 0), e + k)
  {
    hide Accepts, Takes, IsInterval, IntervalBody, IntervalExit, IntervalLower, IntervalUpper;
    var pre := Times(c, k);
    u := pre + t;
    AcceptsMoved(code, pre, t, IntervalExit(code, p), 0, e);
    assert TakesRun(code, IntervalBody(code, p), u, 0, k);
    assert CountTo(code, u, p, 0, k, e + k);
    AcceptsInterval(code, u, p, 0, e + k);
  }

  /** From every command some text leads to the end. */
  lemma {:induction false} Completes(code: seq<byte>, x: set<int>, p: int) returns (t: seq<byte>, e: int)
    requires Closed(code, x) && AllLive(code, x) && p in x + {|code|}
    ensures e >= 0 && Accepts(code, t, Thread(p, 0), e)
    decreases |code| - p
  {
    hide Closed, Accepts, Decode, Extract, IsLoop, IsInterval, Takes, OneChar;
    if p == |code| {
      t, e := [], 0;
      AcceptsAtEnd(code, t, 0, 0);
      return;
    }
    DecodeLeads(code, x, p);
    StartsOk(code, x, p);
    assert Live(code, x, p);
    match Decode(code, p)
    case Match(n, next) =>
      var t', e' := Completes(code, x, next);
      t := CharsThen(code, p, t', e');
      e := e' + n;
    case Take(next) =>
      var c: byte :| Takes(code, p, c);
      var t', e' := Completes(code, x, next);
      t := CharThen(code, p, c, t', e');
      e := e' + 1;
    case Skip(next) =>
      t, e := Completes(code, x, next);
      AcceptsSkip(code, t, p, 0, e);
    case Dummy(next) =>
      t, e := Completes(code, x, next);
      AcceptsSkip(code, t, p, 0, e);
    case Goto(target) =>
      t, e := Completes(code, x, target);
      AcceptsJump(code, t, p, 0, e);
    case Choice(first, _) =>
      t, e := Completes(code, x, first);
      AcceptsChoice(code, t, p, 0, e);
    case Loop(exit) =>
      t, e := Completes(code, x, exit);
      SkipsLoop(code, p, t, e);
    case PlusLoop(_) =>
      LoopBody(code, p + 3);
      var b := p + 6;
      var c: byte :| Takes(code, b, c);
      var t', e' := Completes(code, x, p + 3);
      t := PlusThen(code, p, c, t', e');
      e := e' + 1;
    case Count(exit) =>
      var c: byte :| Takes(code, IntervalBody(code, p), c);
      var t', e' := Completes(code, x, exit);
      var k := IntervalLower(code, p);
      t := CountThen(code, p, c, k, t', e');
      e := e' + k;
  }

  // ---- a character of the fastmap begins some match ----

  /** Some text that begins with `c` is accepted from `p`. */
  ghost predicate Begins(code: seq<byte>, p: int, c: byte) {
    exists t, e :: e > 0 && |t| > 0 && t[0] == c && Accepts(code, t, Thread(p, 0), e)
  }

  lemma BeginsBy(code: seq<byte>, p: int, c: byte, t: seq<byte>, e: int)
    requires e > 0 && |t| > 0 && t[0] == c && Accepts(code, t, Thread(p, 0), e)
    ensures Begins(code, p, c)
  {}

  /** The characters of one-character commands; `.` is entered with all characters, NUL included. */
  lemma StartsTakes(code: seq<byte>, p: int, c: byte)
    requires CharCommand(code, p) && Starts(code, p, c) && c != 0
    ensures OneChar(code, p) ==> Takes(code, p, c)
    ensures code[p] == EXACTN ==> code[p + 1] > 0 && code[p + 2] == c
    ensures code[p] != EXACTN ==> OneChar(code, p)
  {}

  lemma {:induction false} FirstTight(code: seq<byte>, x: set<int>, p: int, c: byte)
    requires Closed(code, x) && AllLive(code, x) && p in x + {|code|} && c != 0 && First(code, code, x, p, c)
    ensures Begins(code, p, c)
    decreases |code| - p
  {
    hide Closed, Accepts, Decode, Extract, IsLoop, IsInterval, Takes, OneChar, AllLive, MaySkip, Starts, Begins;
    DecodeLeads(code, x, p);
    StartsOk(code, x, p);
    match Decode(code, p)
    case Match(n, next) =>
      StartsTakes(code, p, c);
      var t', e' := Completes(code, x, next);
      var t := CharsThen(code, p, t', e');
      BeginsBy(code, p, c, t, e' + n);
    case Take(next) =>
      StartsTakes(code, p, c);
      var t', e' := Completes(code, x, next);
      var t := CharThen(code, p, c, t', e');
      BeginsBy(code, p, c, t, e' + 1);
    case Skip(next) =>
      FirstTight(code, x, next, c);
      BeginsAlong(code, p, next, c);
    case Dummy(next) =>
      FirstTight(code, x, next, c);
      BeginsAlong(code, p, next, c);
    case Goto(target) =>
      FirstTight(code, x, target, c);
      BeginsAlong(code, p, target, c);
    case Choice(first, second) =>
      var next := if First(code, code, x, first, c) then first else second;
      FirstTight(code, x, next, c);
      BeginsAlong(code, p, next, c);
    case Loop(exit) =>
      if Starts(code, p + 3, c) {
        StartsTakes(code, p + 3, c);
        LoopBody(code, p);
        var t', e' := Completes(code, x, p);
        var t := OnceThen(code, p, c, t', e');
        BeginsBy(code, p, c, t, e' + 1);
      } else {
        FirstTight(code, x, exit, c);
        BeginsBehind(code, p, exit, c);
      }
    case PlusLoop(_) =>
      StartsTakes(code, p + 6, c);
      LoopBody(code, p + 3);
      var t', e' := Completes(code, x, p + 3);
      var t := PlusThen(code, p, c, t', e');
      BeginsBy(code, p, c, t, e' + 1);
    case Count(exit) =>
      if Starts(code, IntervalBody(code, p), c) {
        StartsTakes(code, IntervalBody(code, p), c);
        var t', e' := Completes(code, x, exit);
        var k := if IntervalLower(code, p) > 0 then IntervalLower(code, p) else 1;
        var t := CountThen(code, p, c, k, t', e');
        BeginsBy(code, p, c, t, e' + k);
      } else {
        FirstTight(code, x, exit, c);
        CountBehind(code, p, exit, c);
      }
  }

  /** Commands that take nothing. */
  lemma BeginsAlong(code: seq<byte>, p: int, next: int, c: byte)
    requires Fits(code, p) && Begins(code, next, c)
    requires (IsSkip(code[p]) && next == p + OpLen(code, p)) || (p + 3 <= |code| && IsJump(code[p]) && next == Target(code, p)) ||
             (p + 3 <= |code| && code[p] == ON_FAILURE_JUMP && (next == p + 3 || next == Target(code, p)))
    ensures Begins(code, p, c)
  {
    hide Accepts, Extract;
    var t, e :| e > 0 && |t| > 0 && t[0] == c && Accepts(code, t, Thread(next, 0), e);
    if IsSkip(code[p]) {
      AcceptsSkip(code, t, p, 0, e);
    } else if IsJump(code[p]) {
      AcceptsJump(code, t, p, 0, e);
    } else {
      AcceptsChoice(code, t, p, 0, e);
    }
  }

  lemma BeginsBehind(code: seq<byte>, p: int, exit: int, c: byte)
    requires IsLoop(code, p) && exit == LoopEnd(code, p) + 3 && Begins(code, exit, c)
    ensures Begins(code, p, c)
  {
    hide Accepts, Extract, IsLoop;
    var t, e :| e > 0 && |t| > 0 && t[0] == c && Accepts(code, t, Thread(exit, 0), e);
    SkipsLoop(code, p, t, e);
  }

  lemma CountBehind(code: seq<byte>, p: int, exit: int, c: byte)
    requires IsInterval(code, p) && exit == IntervalExit(code, p) && MaySkip(code, code, p) && Begins(code, exit, c)
    ensures Begins(code, p, c)
  {
    hide Accepts, Extract, IntervalExit, IntervalBody, OneChar;
    var t, e :| e > 0 && |t| > 0 && t[0] == c && Accepts(code, t, Thread(exit, 0), e);
    assert IntervalLower(code, p) == 0;
    var u := CountThen(code, p, c, 0, t, e);
    assert u == t;
  }

  /** For a program as compiled, the fastmap has exactly the characters a nonempty match can begin with, NUL aside, and the
      flag says exactly whether there is an empty match. */
  lemma FastmapExact(code: seq<byte>, x: set<int>, c: byte)
    requires WfProgram(code, x) && Closed(code, x) && AllLive(code, x) && 0 in x + {|code|}
    ensures c != 0 ==> (First(code, code, x, 0, c) <==> Begins(code, 0, c))
    ensures Null(code, code, x, 0) <==> Accepts(code, [], Thread(0, 0), 0)
  {
    hide WfProgram, Closed, AllLive, First, Null, Accepts;
    VariantSelf(code, x);
    if c != 0 && First(code, code, x, 0, c) {
      FirstTight(code, x, 0, c);
    }
    if Begins(code, 0, c) {
      var t, e :| e > 0 && |t| > 0 && t[0] == c && Accepts(code, t, Thread(0, 0), e);
      FirstSound(code, code, x, t, 0, 0, e);
    }
    if Null(code, code, x, 0) {
      NullRight(code, x, [], 0, 0);
    }
    if Accepts(code, [], Thread(0, 0), 0) {
      FirstSound(code, code, x, [], 0, 0, 0);
    }
  }
}