/** Groups are numbered in the order of their opening brackets, and their commands in a program are bracketed like they are. */
module GroupNumbers {
  import opened Bytes
  import opened Opcodes
  import opened Regex
  import opened Code
  import opened Machine
  import opened CompilerCorrect
  import opened WellFormed
  import opened Reading
  import opened Shapes
  import opened Boundaries

  /** A group whose start has been passed and whose end has not: its number, and the number of groups it says it has inside. */
  datatype Entered = Entered(number: nat, inside: nat)

  /** How many groups have started, and those that have not ended, outermost first. */
  datatype Tally = Tally(started: nat, open: seq<Entered>) | Wrong

  /** One command: a start must have the next number; an end must belong to the group entered last, and both must name the
      number of groups that started in between. */
  function Pass(code: seq<byte>, p: int, c: Tally): Tally
    requires Fits(code, p)
  {
    if c.Wrong? then Wrong
    else if code[p] == START_MEMORY then
      if code[p + 1] == c.started + 1 then Tally(c.started + 1, c.open + [Entered(code[p + 1], code[p + 2])]) else Wrong
    else if code[p] == STOP_MEMORY then
      if |c.open| > 0 && c.open[|c.open| - 1] == Entered(code[p + 1], code[p + 2]) && code[p + 1] as int + code[p + 2] as int == c.started
      then Tally(c.started, c.open[..|c.open| - 1]) else Wrong
    else c
  }

  /** The commands from `p` to `hi`, one after the other. */
  function PassAll(code: seq<byte>, p: int, hi: int, c: Tally): Tally
    requires p <= hi
    decreases hi - p
  {
    if p == hi then c
    else if Fits(code, p) && p + OpLen(code, p) <= hi then PassAll(code, p + OpLen(code, p), hi, Pass(code, p, c))
    else Wrong
  }

  lemma {:induction false} PassBoth(code: seq<byte>, p: int, m: int, hi: int, c: Tally, d: Tally)
    requires p <= m <= hi && PassAll(code, p, m, c) == d && !d.Wrong?
    ensures PassAll(code, p, hi, c) == PassAll(code, m, hi, d)
    decreases m - p
  {
    hide Pass, OpLen;
    if p < m {
      PassBoth(code, p + OpLen(code, p), m, hi, Pass(code, p, c), d);
    }
  }

  /** The commands from `p` to `hi` start `n` more groups and end them all. */
  ghost predicate Passes(code: seq<byte>, p: int, hi: int, g: nat, n: nat) {
    p <= hi && forall open: seq<Entered> :: PassAll(code, p, hi, Tally(g, open)) == Tally(g + n, open)
  }

  lemma PassesBoth(code: seq<byte>, p: int, m: int, hi: int, g: nat, a: nat, b: nat)
    requires Passes(code, p, m, g, a) && Passes(code, m, hi, g + a, b)
    ensures Passes(code, p, hi, g, a + b)
  {
    hide PassAll;
    forall open: seq<Entered>
      ensures PassAll(code, p, hi, Tally(g, open)) == Tally(g + (a + b), open)
    {
      PassBoth(code, p, m, hi, Tally(g, open), Tally(g + a, open));
    }
  }

  lemma PassesNothing(code: seq<byte>, p: int, g: nat)
    ensures Passes(code, p, p, g, 0)
  {}

  /** A command that has nothing to do with groups. */
  lemma PassesOne(code: seq<byte>, p: int, g: nat)
    requires Fits(code, p) && code[p] != START_MEMORY && code[p] != STOP_MEMORY
    ensures Passes(code, p, p + OpLen(code, p), g, 0)
  {
    hide OpLen;
    forall open: seq<Entered>
      ensures PassAll(code, p, p + OpLen(code, p), Tally(g, open)) == Tally(g + 0, open)
    {
      assert Pass(code, p, Tally(g, open)) == Tally(g, open);
    }
  }

  lemma PassesFront(code: seq<byte>, p: int, hi: int, g: nat, n: nat)
    requires Fits(code, p) && code[p] != START_MEMORY && code[p] != STOP_MEMORY && Passes(code, p + OpLen(code, p), hi, g, n)
    ensures Passes(code, p, hi, g, n)
  {
    hide Passes, OpLen;
    PassesOne(code, p, g);
    PassesBoth(code, p, p + OpLen(code, p), hi, g, 0, n);
  }

  lemma PassesBack(code: seq<byte>, p: int, m: int, g: nat, n: nat)
    requires Fits(code, m) && code[m] != START_MEMORY && code[m] != STOP_MEMORY && Passes(code, p, m, g, n)
    ensures Passes(code, p, m + OpLen(code, m), g, n)
  {
    hide Passes, OpLen;
    PassesOne(code, m, g + n);
    PassesBoth(code, p, m, m + OpLen(code, m), g, n, 0);
  }

  /** A group: its start, what is inside, and its end. */
  lemma PassesGroup(code: seq<byte>, p: int, m: int, g: nat, n: nat)
    requires Fits(code, p) && code[p] == START_MEMORY && code[p + 1] == g + 1 && code[p + 2] == n
    requires Passes(code, p + 3, m, g + 1, n)
    requires Fits(code, m) && code[m] == STOP_MEMORY && code[m + 1] == g + 1 && code[m + 2] == n
    ensures Passes(code, p, m + 3, g, 1 + n)
  {
    forall open: seq<Entered>
      ensures PassAll(code, p, m + 3, Tally(g, open)) == Tally(g + (1 + n), open)
    {
      var all := open + [Entered(g + 1, n)];
      assert Pass(code, p, Tally(g, open)) == Tally(g + 1, all);
      PassBoth(code, p + 3, m, m + 3, Tally(g + 1, all), Tally(g + 1 + n, all));
      assert all[..|all| - 1] == open;
      assert Pass(code, m, Tally(g + 1 + n, all)) == Tally(g + 1 + n, open);
    }
  }

  // ---- expressions ----

  /** The numbers in the commands of a group. */
  lemma GroupBytes(alts: seq<Branch>, g: nat, code: seq<byte>, k: int)
    requires |alts| > 0 && At(code, k, CodeGroup(alts, g)) && g + 1 + GroupsAlts(alts) <= MAX_REGNUM
    ensures var s := k + 3 + |CodeAlts(alts, g + 1)| + if |alts| > 1 then 1 else 0;
            && 0 <= k && s + 3 <= |code| && k + |CodeGroup(alts, g)| == s + 3
            && code[k] == START_MEMORY && code[k + 1] == g + 1 && code[k + 2] == GroupsAlts(alts)
            && code[s] == STOP_MEMORY && code[s + 1] == g + 1 && code[s + 2] == GroupsAlts(alts)
  {
    hide CodeAlts, GroupsAlts;
    GroupLayout(alts, g, code, k);
    var c := CodeGroup(alts, g);
    var s := |c| - 3;
    assert c[1] == g + 1 && c[2] == GroupsAlts(alts) && c[s + 1] == g + 1 && c[s + 2] == GroupsAlts(alts);
    assert code[k + 1] == code[k..k + |c|][1] && code[k + 2] == code[k..k + |c|][2];
    assert code[k + s + 1] == code[k..k + |c|][s + 1] && code[k + s + 2] == code[k..k + |c|][s + 2];
  }

  lemma {:induction false} NodePasses(n: Node, g: nat, code: seq<byte>, k: int)
    requires Shaped(n) && At(code, k, CodeNode(n, g)) && |code| < 32768 && g + Groups(n) <= MAX_REGNUM
    ensures Passes(code, k, k + |CodeNode(n, g)|, g, Groups(n))
    decreases n, 0
  {
    hide Passes, At, CodeNode, CodeGroup, ShapedAlts, OpLen, GroupsAlts;
    match n
    case Exact(lits) => CharPasses(n, g, code, k);
    case AnyChar => CharPasses(n, g, code, k);
    case CharSet(_, _) => CharPasses(n, g, code, k);
    case Group(alts) =>
      GroupCode(alts, g);
      GroupPasses(alts, g, code, k);
    case Repeat(operand, ops) => RepeatPasses(operand, ops, g, code, k);
    case Interval(_, _, _) => IntervalPasses(n, g, code, k);
    case Skipped(ops) =>
      SkippedCode(ops, g);
      PassesNothing(code, k, g);
    case Stray =>
      StrayAt(code, k, g);
      PassesOne(code, k, g);
  }

  lemma CharPasses(n: Node, g: nat, code: seq<byte>, k: int)
    requires (n.Exact? || n.AnyChar? || n.CharSet?) && Shaped(n) && At(code, k, CodeNode(n, g))
    ensures Passes(code, k, k + |CodeNode(n, g)|, g, 0)
  {
    hide Passes;
    FirstByte(code, k, CodeNode(n, g));
    if n.Exact? {
      ExactShape(n.lits, g, code, k);
    } else {
      CharEntry(n, g, code, k);
    }
    CharNoJump(n, g, code, k);
    PassesOne(code, k, g);
  }

  lemma {:induction false} BranchPasses(b: seq<Node>, g: nat, code: seq<byte>, k: int)
    requires ShapedBranch(b) && At(code, k, CodeBranch(b, g)) && |code| < 32768 && g + GroupsBranch(b) <= MAX_REGNUM
    ensures Passes(code, k, k + |CodeBranch(b, g)|, g, GroupsBranch(b))
    decreases b, 0
  {
    hide Passes, CodeBranch, CodeNode, Groups, Shaped, At;
    if |b| == 0 {
      EmptyBlock(b, g, code, k);
      PassesNothing(code, k, g);
    } else {
      var init, last := b[..|b| - 1], b[|b| - 1];
      var h := g + GroupsBranch(init);
      BranchUnfold(b, g);
      AtSplit(code, k, CodeBranch(init, g), CodeNode(last, h));
      BranchPasses(init, g, code, k);
      NodePasses(last, h, code, k + |CodeBranch(init, g)|);
      PassesBoth(code, k, k + |CodeBranch(init, g)|, k + |CodeBranch(b, g)|, g, GroupsBranch(init), Groups(last));
    }
  }

  lemma {:induction false} AltsPass(alts: seq<Branch>, g: nat, code: seq<byte>, k: int)
    requires |alts| > 0 && ShapedAlts(alts) && At(code, k, CodeAlts(alts, g)) && |code| < 32768 && g + GroupsAlts(alts) <= MAX_REGNUM
    ensures Passes(code, k, k + |CodeAlts(alts, g)|, g, GroupsAlts(alts))
    decreases alts, 0
  {
    hide Passes, CodeAlts, CodeBranch, GroupsBranch, ShapedBranch, At, Target;
    var first, h := alts[0].nodes, g + GroupsBranch(alts[0].nodes);
    AtFits(code, k, CodeAlts(alts, g));
    if |alts| == 1 {
      OneAlt(alts, g);
      BranchPasses(first, g, code, k);
      assert alts[1..] == [] && GroupsAlts(alts) == GroupsBranch(first);
    } else {
      AltLayout(alts, g, code, k);
      var p, hi := k + 3 + |CodeBranch(first, g)|, k + |CodeAlts(alts, g)|;
      BranchPasses(first, g, code, k + 3);
      AltsPass(alts[1..], h, code, p + 3);
      ThreeBytes(code, k);
      ThreeBytes(code, p);
      PassesFront(code, k, p, g, GroupsBranch(first));
      PassesFront(code, p, hi, h, GroupsAlts(alts[1..]));
      PassesBoth(code, k, p, hi, g, GroupsBranch(first), GroupsAlts(alts[1..]));
    }
  }

  lemma ThreeBytes(code: seq<byte>, p: int)
    requires 0 <= p && p + 3 <= |code|
    requires code[p] in {ON_FAILURE_JUMP, JUMP_PAST_ALT, MAYBE_POP_JUMP, DUMMY_FAILURE_JUMP, JUMP}
    ensures Fits(code, p) && OpLen(code, p) == 3 && code[p] != START_MEMORY && code[p] != STOP_MEMORY
  {}

  lemma FiveBytes(code: seq<byte>, p: int)
    requires 0 <= p && p + 5 <= |code| && code[p] in {SET_NUMBER_AT, SUCCEED_N, JUMP_N}
    ensures Fits(code, p) && OpLen(code, p) == 5 && code[p] != START_MEMORY && code[p] != STOP_MEMORY
  {}

  lemma {:induction false} GroupPasses(alts: seq<Branch>, g: nat, code: seq<byte>, k: int)
    requires |alts| > 0 && ShapedAlts(alts) && At(code, k, CodeGroup(alts, g)) && |code| < 32768 && g + 1 + GroupsAlts(alts) <= MAX_REGNUM
    ensures Passes(code, k, k + |CodeGroup(alts, g)|, g, 1 + GroupsAlts(alts))
    decreases alts, 1
  {
    hide ShapedAlts, CodeAlts, CodeGroup, Passes, At, GroupsAlts;
    GroupLayout(alts, g, code, k);
    GroupBytes(alts, g, code, k);
    var n := k + 3;
    var s := n + |CodeAlts(alts, g + 1)|;
    AltsPass(alts, g + 1, code, n);
    if |alts| > 1 {
      DummyFits(code, s);
      PassesBack(code, n, s, g + 1, GroupsAlts(alts));
      s := s + 1;
    }
    MemoryFits(code, k);
    MemoryFits(code, s);
    PassesGroup(code, k, s, g, GroupsAlts(alts));
  }

  lemma DummyFits(code: seq<byte>, p: int)
    requires 0 <= p < |code| && code[p] == PUSH_DUMMY_FAILURE
    ensures Fits(code, p) && OpLen(code, p) == 1 && code[p] != START_MEMORY && code[p] != STOP_MEMORY
  {}

  lemma MemoryFits(code: seq<byte>, p: int)
    requires 0 <= p && p + 3 <= |code| && (code[p] == START_MEMORY || code[p] == STOP_MEMORY)
    ensures Fits(code, p) && OpLen(code, p) == 3
  {}

  lemma {:induction false} RepeatPasses(n: Node, ops: seq<RepeatOp>, g: nat, code: seq<byte>, k: int)
    requires Shaped(n) && |ops| > 0 && At(code, k, CodeNode(Repeat(n, ops), g)) && |code| < 32768 && g + Groups(n) <= MAX_REGNUM
    ensures Passes(code, k, k + |CodeNode(Repeat(n, ops), g)|, g, Groups(n))
    decreases n, 1
  {
    hide RepeatCode, Passes, CodeNode, Shaped, ZeroOk, ManyOk, At, Target, Groups;
    var zero, many, c := ZeroOk(ops), ManyOk(ops), CodeNode(n, g);
    RepeatUnfold(n, ops, g);
    RepeatLayout(c, zero, many, code, k);
    var q, hi := k + if zero then 0 else 3, k + |RepeatCode(c, zero, many)|;
    AtFits(code, k, RepeatCode(c, zero, many));
    NodePasses(n, g, code, q + 3);
    ThreeBytes(code, q);
    PassesFront(code, q, q + 3 + |c|, g, Groups(n));
    if many {
      ThreeBytes(code, q + 3 + |c|);
      PassesBack(code, q, q + 3 + |c|, g, Groups(n));
    }
    if !zero {
      ThreeBytes(code, k);
      PassesFront(code, k, hi, g, Groups(n));
    }
  }

  lemma {:induction false} IntervalPasses(n: Node, g: nat, code: seq<byte>, k: int)
    requires n.Interval? && Shaped(n) && At(code, k, CodeNode(n, g)) && |code| < 32768 && g + Groups(n.operand) <= MAX_REGNUM
    ensures Passes(code, k, k + |CodeNode(n, g)|, g, Groups(n.operand))
    decreases n.operand, 1
  {
    hide Passes, CodeNode, IntervalCode, LowerOf, UpperOf, At, Shaped, Target, Groups;
    IntervalIs(n, g);
    var c, lo, hi := CodeNode(n.operand, g), LowerOf(n), UpperOf(n);
    var body := k + if hi == 0 then 3 else if hi == 1 then 10 else 15;
    if hi == 0 {
      NoneCode(c, lo, code, k);
    } else {
      IntervalBodyAt(c, lo, hi, code, k);
    }
    if n.operand == Skipped([]) {
      SkippedCode([], g);
      NoGroupsSkipped();
      PassesNothing(code, body, g);
    } else {
      NodePasses(n.operand, g, code, body);
    }
    CountPasses(c, lo, hi, code, k, g, Groups(n.operand));
  }

  lemma NoGroupsSkipped()
    ensures Groups(Skipped([])) == 0
  {}

  lemma CountPasses(c: seq<byte>, lo: int, hi: int, code: seq<byte>, k: int, g: nat, n: nat)
    requires At(code, k, IntervalCode(c, lo, hi)) && |code| < 32768 && 0 <= lo <= hi <= RE_DUP_MAX
    requires var b := k + if hi == 0 then 3 else if hi == 1 then 10 else 15; Passes(code, b, b + |c|, g, n)
    ensures Passes(code, k, k + |IntervalCode(c, lo, hi)|, g, n)
  {
    hide Passes, IntervalCode, At, Extract;
    if hi == 0 {
      NoneCode(c, lo, code, k);
      ThreeBytes(code, k);
      PassesFront(code, k, k + 3 + |c|, g, n);
    } else if hi == 1 {
      IntervalOneLayout(c, lo, code, k);
      FiveBytes(code, k + 5);
      FiveBytes(code, k);
      PassesFront(code, k + 5, k + 10 + |c|, g, n);
      PassesFront(code, k, k + 10 + |c|, g, n);
    } else {
      IntervalHead(c, lo, hi, code, k);
      IntervalTail(c, lo, hi, code, k);
      var j := k + 15 + |c|;
      FiveBytes(code, j);
      FiveBytes(code, k + 10);
      FiveBytes(code, k + 5);
      FiveBytes(code, k);
      PassesBack(code, k + 15, j, g, n);
      PassesFront(code, k + 10, j + 5, g, n);
      PassesFront(code, k + 5, j + 5, g, n);
      PassesFront(code, k, j + 5, g, n);
    }
  }

  /** In the code of every pattern of at most 255 groups, group commands read from left to right are numbered 1, 2, 3 and so
      on, ends belong to the group entered last, and each names the number of groups inside. */
  lemma GroupsNumbered(pattern: seq<byte>)
    requires ReadPattern(pattern).Read? && |CodeAlts(ReadPattern(pattern).alts, 0)| < 32768
    requires GroupsAlts(ReadPattern(pattern).alts) <= 255
    ensures var alts := ReadPattern(pattern).alts;
            var code := CodeAlts(alts, 0);
            PassAll(code, 0, |code|, Tally(0, [])) == Tally(GroupsAlts(alts), [])
  {
    hide CodeAlts, ReadPattern, ShapedAlts, GroupsAlts, PassAll;
    ReadShaped(pattern);
    var alts := ReadPattern(pattern).alts;
    var code := CodeAlts(alts, 0);
    WholeCode(code);
    AltsPass(alts, 0, code, 0);
    assert PassAll(code, 0, |code|, Tally(0, [])) == Tally(0 + GroupsAlts(alts), []);
  }
}
