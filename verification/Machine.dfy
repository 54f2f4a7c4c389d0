/** Compiled patterns read as a nondeterministic machine. */
module Machine {
  import opened Bytes
  import opened Opcodes

  /** A place in the compiled pattern and a place in the text. */
  datatype Thread = Thread(p: int, d: int)

  /** Length in bytes of the command at `p`. */
  function OpLen(code: seq<byte>, p: nat): (n: nat)
    requires p < |code|
    ensures n > 0
  {
    var op := code[p];
    if op == EXACTN || op == CHARSET || op == CHARSET_NOT then
      if p + 1 < |code| then 2 + code[p + 1] as int else 2
    else if op == ANYCHAR || op == PUSH_DUMMY_FAILURE || op == NO_OP then 1
    else if op == SUCCEED_N || op == JUMP_N || op == SET_NUMBER_AT then 5
    else 3
  }

  /** A whole command lies at `p`. */
  predicate Fits(code: seq<byte>, p: int) {
    0 <= p < |code| && p + OpLen(code, p) <= |code|
  }

  /** Where the jump at `p` goes. */
  function Target(code: seq<byte>, p: nat): int
    requires p + 3 <= |code|
  {
    p + 3 + Extract(code, p + 1)
  }

  /** The bitmap at `p + 2`, `code[p + 1]` bytes long, has a bit for `c`. */
  predicate InMap(code: seq<byte>, p: nat, c: byte)
    requires p + 1 < |code| && p + 2 + code[p + 1] <= |code|
  {
    c < 8 * code[p + 1] as int && HasBit(code[p + 2 + c / 8], (c % 8) as nat)
  }

  /** A command that takes exactly one character; bitmaps have at most 32 bytes. */
  predicate OneChar(code: seq<byte>, p: int) {
    Fits(code, p) &&
    (code[p] == ANYCHAR || ((code[p] == CHARSET || code[p] == CHARSET_NOT) && code[p + 1] <= 32) ||
     (code[p] == EXACTN && code[p + 1] == 1))
  }

  /** Whether the one-character command at `p` takes `c`.  The syntax has RE_DOT_NEWLINE and
      RE_DOT_NOT_NULL set, so `.` takes everything but NUL. */
  predicate Takes(code: seq<byte>, p: int, c: byte)
    requires OneChar(code, p)
  {
    if code[p] == ANYCHAR then c != 0
    else if code[p] == EXACTN then code[p + 2] == c
    else InMap(code, p, c) == (code[p] == CHARSET)
  }

  predicate TakesAt(code: seq<byte>, p: int, t: seq<byte>, d: int)
    requires OneChar(code, p)
  {
    0 <= d < |t| && Takes(code, p, t[d])
  }

  // ---- loops over one character: on_failure_jump exit; body; maybe_pop_jump back ----

  predicate IsLoop(code: seq<byte>, q: int) {
    && 0 <= q < |code| && code[q] == ON_FAILURE_JUMP && OneChar(code, q + 3)
    && var m := q + 3 + OpLen(code, q + 3);
       && m + 3 <= |code| && code[m] == MAYBE_POP_JUMP
       && Target(code, m) == q && Target(code, q) == m + 3
  }

  /** Position of the maybe_pop_jump that ends the loop at `q`. */
  function LoopEnd(code: seq<byte>, q: int): (m: int)
    requires IsLoop(code, q)
    ensures q + 4 <= m && m + 3 <= |code|
  {
    q + 3 + OpLen(code, q + 3)
  }

  // ---- intervals over one character ----

  /** `{m,1}`: set_number_at succeed_n.count; succeed_n exit count; body. */
  predicate IsIntervalOne(code: seq<byte>, p: int) {
    && 0 <= p && p + 10 < |code|
    && code[p] == SET_NUMBER_AT && Extract(code, p + 1) == 5
    && 0 <= Extract(code, p + 3) <= 1
    && code[p + 5] == SUCCEED_N && Extract(code, p + 8) == Extract(code, p + 3)
    && OneChar(code, p + 10) && Target(code, p + 5) == p + 10 + OpLen(code, p + 10)
  }

  /** `{m,n}` with n > 1: set_number_at jump_n.count; set_number_at succeed_n.count;
      succeed_n exit count; body; jump_n back count. */
  predicate IsIntervalMany(code: seq<byte>, p: int) {
    && 0 <= p && p + 15 < |code|
    && code[p] == SET_NUMBER_AT
    && code[p + 5] == SET_NUMBER_AT && Extract(code, p + 6) == 5
    && code[p + 10] == SUCCEED_N && Extract(code, p + 13) == Extract(code, p + 8)
    && 0 <= Extract(code, p + 8) <= Extract(code, p + 3) + 1 && 1 <= Extract(code, p + 3)
    && OneChar(code, p + 15)
    && var j := p + 15 + OpLen(code, p + 15);
       && j + 5 <= |code| && code[j] == JUMP_N && Target(code, j) == p + 10
       && Extract(code, p + 1) == j - p && Target(code, p + 10) == j + 5
  }

  predicate IsInterval(code: seq<byte>, p: int) {
    IsIntervalOne(code, p) || IsIntervalMany(code, p)
  }

  /** Position of the succeed_n of an interval. */
  function CountPos(code: seq<byte>, p: int): int
    requires IsInterval(code, p)
  {
    if IsIntervalOne(code, p) then p + 5 else p + 10
  }

  function IntervalBody(code: seq<byte>, p: int): (b: int)
    requires IsInterval(code, p)
    ensures OneChar(code, b)
  {
    CountPos(code, p) + 5
  }

  function IntervalExit(code: seq<byte>, p: int): (e: int)
    requires IsInterval(code, p)
    ensures p + 10 < e <= |code|
  {
    var b := IntervalBody(code, p);
    b + OpLen(code, b) + if IsIntervalOne(code, p) then 0 else 5
  }

  function IntervalLower(code: seq<byte>, p: int): (n: nat)
    requires IsInterval(code, p)
    ensures n <= IntervalUpper(code, p)
  {
    if IsIntervalOne(code, p) then Extract(code, p + 3) else Extract(code, p + 8)
  }

  function IntervalUpper(code: seq<byte>, p: int): (n: nat)
    requires IsInterval(code, p)
    ensures n > 0
  {
    if IsIntervalOne(code, p) then 1 else Extract(code, p + 3) + 1
  }

  /** `k` characters from `d` on that the command at `b` takes. */
  predicate TakesRun(code: seq<byte>, b: int, t: seq<byte>, d: int, k: nat)
    requires OneChar(code, b)
  {
    0 <= d && d + k <= |t| && forall x :: d <= x < d + k ==> Takes(code, b, t[x])
  }

  // ---- the machine ----

  predicate IsJump(op: byte) {
    op == JUMP || op == JUMP_PAST_ALT || op == POP_FAILURE_JUMP || op == MAYBE_POP_JUMP || op == DUMMY_FAILURE_JUMP
  }

  predicate IsSkip(op: byte) {
    op == START_MEMORY || op == STOP_MEMORY || op == PUSH_DUMMY_FAILURE || op == NO_OP
  }

  /** One move: `on_failure_jump` is a choice, every kind of jump is just a jump, and an interval
      takes any number of characters between its bounds. */
  ghost predicate Step(code: seq<byte>, t: seq<byte>, a: Thread, b: Thread) {
    Fits(code, a.p) && 0 <= a.d <= |t| &&
    var op := code[a.p];
    if op == EXACTN then
      var n := code[a.p + 1];
      n >= 1 && a.d + n <= |t| && t[a.d..a.d + n] == code[a.p + 2..a.p + 2 + n] && b == Thread(a.p + 2 + n, a.d + n)
    else if op == ANYCHAR || op == CHARSET || op == CHARSET_NOT then
      OneChar(code, a.p) && TakesAt(code, a.p, t, a.d) && b == Thread(a.p + OpLen(code, a.p), a.d + 1)
    else if IsSkip(op) then
      b == Thread(a.p + OpLen(code, a.p), a.d)
    else if op == ON_FAILURE_JUMP then
      b == Thread(a.p + 3, a.d) || b == Thread(Target(code, a.p), a.d)
    else if IsJump(op) then
      b == Thread(Target(code, a.p), a.d)
    else if op == SET_NUMBER_AT then
      IsInterval(code, a.p) &&
      exists k: nat :: IntervalLower(code, a.p) <= k <= IntervalUpper(code, a.p) &&
        TakesRun(code, IntervalBody(code, a.p), t, a.d, k) && b == Thread(IntervalExit(code, a.p), a.d + k)
    else
      false
  }

  /** The machine can go from `a` to the end of the pattern with the text cursor at `e`, in at most `n` moves. */
  ghost predicate Run(code: seq<byte>, t: seq<byte>, a: Thread, n: nat, e: int)
    decreases n
  {
    (a == Thread(|code|, e) && 0 <= e <= |t|) ||
    (n > 0 && exists b :: Step(code, t, a, b) && Run(code, t, b, n - 1, e))
  }

  ghost predicate Accepts(code: seq<byte>, t: seq<byte>, a: Thread, e: int) {
    exists n: nat :: Run(code, t, a, n, e)
  }

  lemma {:induction false} RunMore(code: seq<byte>, t: seq<byte>, a: Thread, n: nat, m: nat, e: int)
    requires Run(code, t, a, n, e) && n <= m
    ensures Run(code, t, a, m, e)
    decreases n
  {
    if a == Thread(|code|, e) && 0 <= e <= |t| {
    } else {
      var b :| Step(code, t, a, b) && Run(code, t, b, n - 1, e);
      RunMore(code, t, b, n - 1, m - 1, e);
    }
  }

  /** A run that has not reached the end starts with a move. */
  lemma FirstStep(code: seq<byte>, t: seq<byte>, a: Thread, n: nat, e: int) returns (b: Thread)
    requires Run(code, t, a, n, e) && a.p != |code|
    ensures n > 0 && Step(code, t, a, b) && Run(code, t, b, n - 1, e)
  {
    b :| Step(code, t, a, b) && Run(code, t, b, n - 1, e);
  }

  lemma PushStep(code: seq<byte>, t: seq<byte>, a: Thread, b: Thread, n: nat, e: int)
    requires Step(code, t, a, b) && Run(code, t, b, n, e)
    ensures Run(code, t, a, n + 1, e)
  {}

  lemma {:induction false} RunBounds(code: seq<byte>, t: seq<byte>, a: Thread, n: nat, e: int)
    requires Run(code, t, a, n, e)
    ensures 0 <= a.d <= e <= |t|
    decreases n
  {
    if a == Thread(|code|, e) && 0 <= e <= |t| {
    } else {
      var b :| Step(code, t, a, b) && Run(code, t, b, n - 1, e);
      RunBounds(code, t, b, n - 1, e);
    }
  }

  /** Acceptance from a place that is not the end, by the first move. */
  lemma AcceptsStep(code: seq<byte>, t: seq<byte>, a: Thread, e: int)
    requires a.p != |code|
    ensures Accepts(code, t, a, e) <==> exists b :: Step(code, t, a, b) && Accepts(code, t, b, e)
  {
    if Accepts(code, t, a, e) {
      var n: nat :| Run(code, t, a, n, e);
      var b := FirstStep(code, t, a, n, e);
    }
    if b :| Step(code, t, a, b) && Accepts(code, t, b, e) {
      var n: nat :| Run(code, t, b, n, e);
      PushStep(code, t, a, b, n, e);
    }
  }

  lemma AcceptsAtEnd(code: seq<byte>, t: seq<byte>, d: int, e: int)
    ensures Accepts(code, t, Thread(|code|, d), e) <==> d == e && 0 <= e <= |t|
  {
    if d == e && 0 <= e <= |t| {
      assert Run(code, t, Thread(|code|, d), 0, e);
    }
    if Accepts(code, t, Thread(|code|, d), e) {
      var n: nat :| Run(code, t, Thread(|code|, d), n, e);
    }
  }

  // ---- the moves of the simple commands ----

  lemma StepExactn(code: seq<byte>, t: seq<byte>, a: Thread, b: Thread, n: byte)
    requires Fits(code, a.p) && code[a.p] == EXACTN && code[a.p + 1] == n && n >= 1 && 0 <= a.d <= |t|
    ensures Step(code, t, a, b) <==>
            && a.d + n <= |t| && t[a.d..a.d + n] == code[a.p + 2..a.p + 2 + n]
            && b == Thread(a.p + 2 + n, a.d + n)
  {}

  lemma OneOf(s: seq<byte>, i: int)
    requires 0 <= i < |s|
    ensures s[i..i + 1] == [s[i]]
  {}

  lemma StepOneChar(code: seq<byte>, t: seq<byte>, a: Thread, b: Thread)
    requires OneChar(code, a.p) && 0 <= a.d <= |t|
    ensures Step(code, t, a, b) <==> TakesAt(code, a.p, t, a.d) && b == Thread(a.p + OpLen(code, a.p), a.d + 1)
  {
    hide HasBit, IsInterval;
    if code[a.p] == EXACTN {
      StepExactn(code, t, a, b, 1);
      if a.d < |t| {
        OneOf(t, a.d);
        OneOf(code, a.p + 2);
      }
    }
  }

  lemma StepIntervalAt(code: seq<byte>, t: seq<byte>, a: Thread, b: Thread)
    requires IsInterval(code, a.p) && 0 <= a.d <= |t|
    ensures Step(code, t, a, b) <==>
            exists k: nat :: IntervalLower(code, a.p) <= k <= IntervalUpper(code, a.p) &&
              TakesRun(code, IntervalBody(code, a.p), t, a.d, k) && b == Thread(IntervalExit(code, a.p), a.d + k)
  {
    hide Extract, Takes, IntervalLower, IntervalUpper, IntervalBody, IntervalExit;
  }

  lemma StepJump(code: seq<byte>, t: seq<byte>, a: Thread, b: Thread)
    requires 0 <= a.p && a.p + 3 <= |code| && IsJump(code[a.p]) && 0 <= a.d <= |t|
    ensures Step(code, t, a, b) <==> b == Thread(Target(code, a.p), a.d)
  {}

  lemma StepChoice(code: seq<byte>, t: seq<byte>, a: Thread, b: Thread)
    requires 0 <= a.p && a.p + 3 <= |code| && code[a.p] == ON_FAILURE_JUMP && 0 <= a.d <= |t|
    ensures Step(code, t, a, b) <==> b == Thread(a.p + 3, a.d) || b == Thread(Target(code, a.p), a.d)
  {}

  lemma StepSkip(code: seq<byte>, t: seq<byte>, a: Thread, b: Thread)
    requires Fits(code, a.p) && IsSkip(code[a.p]) && 0 <= a.d <= |t|
    ensures Step(code, t, a, b) <==> b == Thread(a.p + OpLen(code, a.p), a.d)
  {}

  lemma RunJump(code: seq<byte>, t: seq<byte>, p: int, d: int, n: nat, e: int)
    requires 0 <= p && p + 3 <= |code| && IsJump(code[p]) && Run(code, t, Thread(p, d), n, e)
    ensures n > 0 && Run(code, t, Thread(Target(code, p), d), n - 1, e)
  {
    RunBounds(code, t, Thread(p, d), n, e);
    var b := FirstStep(code, t, Thread(p, d), n, e);
    StepJump(code, t, Thread(p, d), b);
  }

  lemma RunChoice(code: seq<byte>, t: seq<byte>, p: int, d: int, n: nat, e: int)
    requires 0 <= p && p + 3 <= |code| && code[p] == ON_FAILURE_JUMP && Run(code, t, Thread(p, d), n, e)
    ensures n > 0
    ensures Run(code, t, Thread(p + 3, d), n - 1, e) || Run(code, t, Thread(Target(code, p), d), n - 1, e)
  {
    RunBounds(code, t, Thread(p, d), n, e);
    var b := FirstStep(code, t, Thread(p, d), n, e);
    StepChoice(code, t, Thread(p, d), b);
  }

  lemma RunSkip(code: seq<byte>, t: seq<byte>, p: int, d: int, n: nat, e: int)
    requires Fits(code, p) && IsSkip(code[p]) && Run(code, t, Thread(p, d), n, e)
    ensures n > 0 && Run(code, t, Thread(p + OpLen(code, p), d), n - 1, e)
  {
    RunBounds(code, t, Thread(p, d), n, e);
    var b := FirstStep(code, t, Thread(p, d), n, e);
    StepSkip(code, t, Thread(p, d), b);
  }

  lemma AcceptsBounds(code: seq<byte>, t: seq<byte>, a: Thread, e: int)
    requires Accepts(code, t, a, e)
    ensures 0 <= a.d <= e <= |t|
  {
    var n: nat :| Run(code, t, a, n, e);
    RunBounds(code, t, a, n, e);
  }

  lemma AcceptsJump(code: seq<byte>, t: seq<byte>, p: int, d: int, e: int)
    requires 0 <= p && p + 3 <= |code| && IsJump(code[p]) && 0 <= d <= |t|
    ensures Accepts(code, t, Thread(p, d), e) <==> Accepts(code, t, Thread(Target(code, p), d), e)
  {
    AcceptsStep(code, t, Thread(p, d), e);
    StepJump(code, t, Thread(p, d), Thread(Target(code, p), d));
    if b :| Step(code, t, Thread(p, d), b) && Accepts(code, t, b, e) {
      StepJump(code, t, Thread(p, d), b);
    }
  }

  lemma AcceptsChoice(code: seq<byte>, t: seq<byte>, p: int, d: int, e: int)
    requires 0 <= p && p + 3 <= |code| && code[p] == ON_FAILURE_JUMP && 0 <= d <= |t|
    ensures Accepts(code, t, Thread(p, d), e) <==>
            Accepts(code, t, Thread(p + 3, d), e) || Accepts(code, t, Thread(Target(code, p), d), e)
  {
    AcceptsStep(code, t, Thread(p, d), e);
    StepChoice(code, t, Thread(p, d), Thread(p + 3, d));
    StepChoice(code, t, Thread(p, d), Thread(Target(code, p), d));
    if b :| Step(code, t, Thread(p, d), b) && Accepts(code, t, b, e) {
      StepChoice(code, t, Thread(p, d), b);
    }
  }

  lemma AcceptsSkip(code: seq<byte>, t: seq<byte>, p: int, d: int, e: int)
    requires Fits(code, p) && IsSkip(code[p]) && 0 <= d <= |t|
    ensures Accepts(code, t, Thread(p, d), e) <==> Accepts(code, t, Thread(p + OpLen(code, p), d), e)
  {
    AcceptsStep(code, t, Thread(p, d), e);
    StepSkip(code, t, Thread(p, d), Thread(p + OpLen(code, p), d));
    if b :| Step(code, t, Thread(p, d), b) && Accepts(code, t, b, e) {
      StepSkip(code, t, Thread(p, d), b);
    }
  }
}
