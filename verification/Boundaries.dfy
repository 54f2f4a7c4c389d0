/** Jumps land on commands, in the code of every expression that can be read. */
module Boundaries {
  import opened Bytes
  import opened Opcodes
  import opened Regex
  import opened Code
  import opened Machine
  import opened CompilerCorrect
  import opened WellFormed
  import opened Reading
  import opened Shapes

  predicate Jumps(op: byte) {
    op == ON_FAILURE_JUMP || op == JUMP || op == JUMP_PAST_ALT || op == MAYBE_POP_JUMP || op == DUMMY_FAILURE_JUMP ||
    op == SUCCEED_N || op == JUMP_N
  }

  /** The command at `p` is whole; the places behind it and where it jumps to are in `y`. */
  predicate Lands(code: seq<byte>, p: int, y: set<int>) {
    Fits(code, p) && p + OpLen(code, p) in y && (Jumps(code[p]) ==> Target(code, p) in y)
  }

  function Size(code: seq<byte>, p: int): (n: nat)
    ensures n > 0
  {
    if 0 <= p < |code| then OpLen(code, p) else 1
  }

  /** `y` are the starts of the commands from `lo` to `hi`: one behind the other, without overlap, and closed under jumps. */
  ghost predicate Commands(code: seq<byte>, y: set<int>, lo: int, hi: int) {
    && 0 <= lo <= hi <= |code| && lo in y + {hi}
    && (forall p :: p in y ==> Lands(code, p, y + {hi}))
    && (forall p :: p in y ==> lo <= p && p + Size(code, p) <= hi)
    && (forall p, q :: p in y && q in y && p < q ==> p + Size(code, p) <= q)
  }

  lemma LandsMore(code: seq<byte>, p: int, y: set<int>, z: set<int>)
    requires Lands(code, p, y) && y <= z
    ensures Lands(code, p, z)
  {}

  lemma NoCommands(code: seq<byte>, k: int)
    requires 0 <= k <= |code|
    ensures Commands(code, {}, k, k)
  {}

  lemma Both(code: seq<byte>, y: set<int>, lo: int, mid: int, z: set<int>, hi: int)
    requires Commands(code, y, lo, mid) && Commands(code, z, mid, hi)
    ensures Commands(code, y + z, lo, hi)
  {
    hide Lands, Size;
    forall p | p in y + z
      ensures Lands(code, p, y + z + {hi})
    {
      if p in y {
        LandsMore(code, p, y + {mid}, y + z + {hi});
      } else {
        LandsMore(code, p, z + {hi}, y + z + {hi});
      }
    }
  }

  lemma LandsAt(code: seq<byte>, p: int, y: set<int>)
    requires Fits(code, p) && p + OpLen(code, p) in y && (Jumps(code[p]) ==> Target(code, p) in y)
    ensures Lands(code, p, y) && Size(code, p) == OpLen(code, p) && 0 <= p < |code|
  {
    hide Target, OpLen;
  }

  /** One more command in front, which may jump anywhere into the rest. */
  lemma Before(code: seq<byte>, k: int, y: set<int>, hi: int)
    requires Fits(code, k) && Commands(code, y, k + OpLen(code, k), hi)
    requires Jumps(code[k]) ==> Target(code, k) in y + {hi}
    ensures Commands(code, {k} + y, k, hi)
  {
    hide Target, OpLen, Lands, Size, Fits, Jumps;
    LandsAt(code, k, {k} + y + {hi});
    forall p | p in {k} + y
      ensures Lands(code, p, {k} + y + {hi})
    {
      if p in y {
        LandsMore(code, p, y + {hi}, {k} + y + {hi});
      }
    }
  }

  /** A loop: a command that jumps out, the body, and a command that jumps back. */
  lemma Around(code: seq<byte>, h: int, y: set<int>, m: int, hi: int)
    requires Fits(code, h) && Jumps(code[h]) && Commands(code, y, h + OpLen(code, h), m) && Target(code, h) == hi
    requires Fits(code, m) && Jumps(code[m]) && Target(code, m) == h && m + OpLen(code, m) == hi
    ensures Commands(code, {h} + y + {m}, h, hi)
  {
    hide *;
    FitsInside(code, h);
    FitsInside(code, m);
    var z := {h} + y + {m};
    Start(code, y, h + OpLen(code, h), m);
    LandsAt(code, h, z + {hi});
    LandsAt(code, m, z + {hi});
    AroundPlaces(code, h, y, m, hi);
    AroundLands(code, h, y, m, hi);
    Assemble(code, z, h, hi);
  }

  lemma FitsInside(code: seq<byte>, p: int)
    requires Fits(code, p)
    ensures 0 <= p < |code| && p + OpLen(code, p) <= |code|
  {
    hide OpLen;
  }

  lemma AroundLands(code: seq<byte>, h: int, y: set<int>, m: int, hi: int)
    requires 0 <= h < |code| && Commands(code, y, h + OpLen(code, h), m)
    requires var z := {h} + y + {m} + {hi}; Lands(code, h, z) && Lands(code, m, z)
    ensures forall p :: p in {h} + y + {m} ==> Lands(code, p, {h} + y + {m} + {hi})
  {
    hide *;
    forall p | p in {h} + y + {m}
      ensures Lands(code, p, {h} + y + {m} + {hi})
    {
      if p in y {
        InnerLands(code, y, h + OpLen(code, h), m, p);
        LandsMore(code, p, y + {m}, {h} + y + {m} + {hi});
      }
    }
  }

  lemma InnerLands(code: seq<byte>, y: set<int>, lo: int, hi: int, p: int)
    requires Commands(code, y, lo, hi) && p in y
    ensures Lands(code, p, y + {hi})
  {
    hide Lands, Size;
  }

  lemma AroundPlaces(code: seq<byte>, h: int, y: set<int>, m: int, hi: int)
    requires 0 <= h < |code| && 0 <= m < |code| && Commands(code, y, h + OpLen(code, h), m) && m + OpLen(code, m) == hi
    ensures var z := {h} + y + {m};
            && (forall p :: p in z ==> h <= p && p + Size(code, p) <= hi)
            && (forall p, q :: p in z && q in z && p < q ==> p + Size(code, p) <= q)
  {
    hide Lands, OpLen;
  }

  lemma Assemble(code: seq<byte>, z: set<int>, lo: int, hi: int)
    requires 0 <= lo <= hi <= |code| && lo in z + {hi}
    requires forall p :: p in z ==> Lands(code, p, z + {hi})
    requires forall p :: p in z ==> lo <= p && p + Size(code, p) <= hi
    requires forall p, q :: p in z && q in z && p < q ==> p + Size(code, p) <= q
    ensures Commands(code, z, lo, hi)
  {
    hide Lands, Size;
  }

  lemma OneCommand(code: seq<byte>, k: int)
    requires Fits(code, k) && !Jumps(code[k])
    ensures Commands(code, {k}, k, k + OpLen(code, k))
  {
    NoCommands(code, k + OpLen(code, k));
    Before(code, k, {}, k + OpLen(code, k));
    assert {k} + {} == {k};
  }

  // ---- expressions ----

  lemma {:induction false} NodeCommands(n: Node, g: nat, code: seq<byte>, k: int) returns (y: set<int>)
    requires Shaped(n) && At(code, k, CodeNode(n, g)) && |code| < 32768
    ensures Commands(code, y, k, k + |CodeNode(n, g)|)
    decreases n, 0
  {
    hide Commands, At, CodeNode, CodeGroup, ShapedAlts, OpLen;
    match n
    case Exact(lits) => y := CharCommand(n, g, code, k);
    case AnyChar => y := CharCommand(n, g, code, k);
    case CharSet(_, _) => y := CharCommand(n, g, code, k);
    case Group(alts) =>
      GroupCode(alts, g);
      y := GroupCommands(alts, g, code, k);
    case Repeat(operand, ops) => y := RepeatCommands(operand, ops, g, code, k);
    case Interval(_, _, _) => y := IntervalCommands(n, g, code, k);
    case Skipped(ops) =>
      y := {};
      SkippedCode(ops, g);
      AtFits(code, k, CodeNode(n, g));
      NoCommands(code, k);
    case Stray =>
      StrayAt(code, k, g);
      OneCommand(code, k);
      y := {k};
  }

  lemma SkippedCode(ops: seq<RepeatOp>, g: nat)
    ensures CodeNode(Skipped(ops), g) == []
  {}

  lemma GroupCode(alts: seq<Branch>, g: nat)
    ensures CodeNode(Group(alts), g) == CodeGroup(alts, g)
  {
    hide CodeGroup;
  }

  lemma CharCommand(n: Node, g: nat, code: seq<byte>, k: int) returns (y: set<int>)
    requires n.Exact? || n.AnyChar? || n.CharSet?
    requires Shaped(n) && At(code, k, CodeNode(n, g))
    ensures Commands(code, y, k, k + |CodeNode(n, g)|)
  {
    hide Commands;
    y := {k};
    if n.Exact? {
      ExactShape(n.lits, g, code, k);
    } else {
      CharEntry(n, g, code, k);
    }
    CharNoJump(n, g, code, k);
    OneCommand(code, k);
  }

  lemma CharNoJump(n: Node, g: nat, code: seq<byte>, k: int)
    requires (n.Exact? || n.AnyChar? || n.CharSet?) && Shaped(n) && At(code, k, CodeNode(n, g))
    ensures Fits(code, k) && !Jumps(code[k]) && OpLen(code, k) == |CodeNode(n, g)|
  {
    FirstByte(code, k, CodeNode(n, g));
    var c := CodeNode(n, g);
    assert |c| > 1 ==> code[k + 1] == c[1] by {
      if |c| > 1 {
        assert code[k + 1] == code[k..k + |c|][1];
      }
    }
  }

  lemma {:induction false} BranchCommands(b: seq<Node>, g: nat, code: seq<byte>, k: int) returns (y: set<int>)
    requires ShapedBranch(b) && At(code, k, CodeBranch(b, g)) && |code| < 32768
    ensures Commands(code, y, k, k + |CodeBranch(b, g)|)
    decreases b, 0
  {
    hide Commands, CodeBranch, CodeNode, GroupsBranch, Shaped, At;
    if |b| == 0 {
      EmptyBlock(b, g, code, k);
      AtFits(code, k, CodeBranch(b, g));
      NoCommands(code, k);
      y := {};
    } else {
      var init, last := b[..|b| - 1], b[|b| - 1];
      var h := g + GroupsBranch(init);
      var mid := k + |CodeBranch(init, g)|;
      BranchUnfold(b, g);
      AtSplit(code, k, CodeBranch(init, g), CodeNode(last, h));
      var y1 := BranchCommands(init, g, code, k);
      var y2 := NodeCommands(last, h, code, mid);
      Both(code, y1, k, mid, y2, k + |CodeBranch(b, g)|);
      y := y1 + y2;
    }
  }

  /** The jump behind an alternative leads to the jump behind the next one, or to the end. */
  lemma {:induction false} AltsCommands(alts: seq<Branch>, g: nat, code: seq<byte>, k: int) returns (y: set<int>)
    requires |alts| > 0 && ShapedAlts(alts) && At(code, k, CodeAlts(alts, g)) && |code| < 32768
    ensures Commands(code, y, k, k + |CodeAlts(alts, g)|)
    ensures |alts| > 1 ==> k + 3 + |CodeBranch(alts[0].nodes, g)| in y
    decreases alts, 0
  {
    hide Commands, CodeAlts, CodeBranch, GroupsBranch, ShapedBranch, At, Target;
    var first, h := alts[0].nodes, g + GroupsBranch(alts[0].nodes);
    AtFits(code, k, CodeAlts(alts, g));
    if |alts| == 1 {
      OneAlt(alts, g);
      y := BranchCommands(first, g, code, k);
    } else {
      AltLayout(alts, g, code, k);
      var p, hi := k + 3 + |CodeBranch(first, g)|, k + |CodeAlts(alts, g)|;
      var y1 := BranchCommands(first, g, code, k + 3);
      var y2 := AltsCommands(alts[1..], h, code, p + 3);
      assert alts[1..][0] == alts[1];
      AltCommands(code, k, y1, p, y2, hi);
      y := {k} + (y1 + ({p} + y2));
    }
  }

  lemma AltCommands(code: seq<byte>, k: int, y1: set<int>, p: int, y2: set<int>, hi: int)
    requires Commands(code, y1, k + 3, p) && Commands(code, y2, p + 3, hi) && 0 <= k
    requires code[k] == ON_FAILURE_JUMP && Target(code, k) == p + 3
    requires code[p] == JUMP_PAST_ALT && Target(code, p) in y2 + {hi}
    ensures Commands(code, {k} + (y1 + ({p} + y2)), k, hi) && p in y1 + ({p} + y2)
  {
    hide Commands, Target;
    Start(code, y1, k + 3, p);
    Start(code, y2, p + 3, hi);
    Before(code, p, y2, hi);
    Both(code, y1, k + 3, p, {p} + y2, hi);
    Before(code, k, y1 + ({p} + y2), hi);
  }

  lemma Start(code: seq<byte>, y: set<int>, lo: int, hi: int)
    requires Commands(code, y, lo, hi)
    ensures lo in y + {hi} && 0 <= lo <= hi <= |code|
  {
    hide Lands, Size;
  }

  lemma {:induction false} GroupCommands(alts: seq<Branch>, g: nat, code: seq<byte>, k: int) returns (y: set<int>)
    requires |alts| > 0 && ShapedAlts(alts) && At(code, k, CodeGroup(alts, g)) && |code| < 32768
    ensures Commands(code, y, k, k + |CodeGroup(alts, g)|)
    decreases alts, 1
  {
    hide ShapedAlts, CodeAlts, CodeGroup, Commands, At;
    GroupLayout(alts, g, code, k);
    var n := GroupStart(g, k);
    var s := n + |CodeAlts(alts, g + 1)|;
    y := AltsCommands(alts, g + 1, code, n);
    if |alts| > 1 {
      OneCommand(code, s);
      Both(code, y, n, s, {s}, s + 1);
      y, s := y + {s}, s + 1;
    }
    if g + 1 <= MAX_REGNUM {
      OneCommand(code, s);
      Both(code, y, n, s, {s}, s + 3);
      Before(code, k, y + {s}, s + 3);
      y := {k} + (y + {s});
    }
  }

  lemma {:induction false} RepeatCommands(n: Node, ops: seq<RepeatOp>, g: nat, code: seq<byte>, k: int) returns (y: set<int>)
    requires Shaped(n) && |ops| > 0 && At(code, k, CodeNode(Repeat(n, ops), g)) && |code| < 32768
    ensures Commands(code, y, k, k + |CodeNode(Repeat(n, ops), g)|)
    decreases n, 1
  {
    hide RepeatCode, Commands, CodeNode, Shaped, ZeroOk, ManyOk, At, Target;
    var zero, many, c := ZeroOk(ops), ManyOk(ops), CodeNode(n, g);
    RepeatUnfold(n, ops, g);
    RepeatLayout(c, zero, many, code, k);
    var q, hi := k + if zero then 0 else 3, k + |RepeatCode(c, zero, many)|;
    AtFits(code, k, RepeatCode(c, zero, many));
    y := NodeCommands(n, g, code, q + 3);
    Start(code, y, q + 3, q + 3 + |c|);
    if many {
      Around(code, q, y, q + 3 + |c|, hi);
      y := {q} + y + {q + 3 + |c|};
    } else {
      Before(code, q, y, hi);
      y := {q} + y;
    }
    if !zero {
      Before(code, k, y, hi);
      y := {k} + y;
    }
  }

  lemma {:induction false} IntervalCommands(n: Node, g: nat, code: seq<byte>, k: int) returns (y: set<int>)
    requires n.Interval? && Shaped(n) && At(code, k, CodeNode(n, g)) && |code| < 32768
    ensures Commands(code, y, k, k + |CodeNode(n, g)|)
    decreases n.operand, 1
  {
    hide Commands, CodeNode, IntervalCode, LowerOf, UpperOf, At, Shaped, Target;
    IntervalIs(n, g);
    var c, lo, hi := CodeNode(n.operand, g), LowerOf(n), UpperOf(n);
    var body := k + if hi == 0 then 3 else if hi == 1 then 10 else 15;
    if hi == 0 {
      NoneCode(c, lo, code, k);
    } else {
      IntervalBodyAt(c, lo, hi, code, k);
    }
    if n.operand == Skipped([]) {
      SkippedCode([], g);
      AtFits(code, body, c);
      NoCommands(code, body);
      y := {};
    } else {
      y := NodeCommands(n.operand, g, code, body);
    }
    y := CountCommands(c, lo, hi, code, k, y);
  }

  lemma IntervalIs(n: Node, g: nat)
    requires n.Interval? && Shaped(n)
    ensures CodeNode(n, g) == IntervalCode(CodeNode(n.operand, g), LowerOf(n), UpperOf(n))
    ensures 0 <= LowerOf(n) <= UpperOf(n) <= RE_DUP_MAX && (n.operand == Skipped([]) || Shaped(n.operand))
  {
    hide IntervalCode, Operand;
  }

  /** `{0}`: a jump over the operand. */
  lemma NoneCode(c: seq<byte>, lo: int, code: seq<byte>, k: int)
    requires At(code, k, IntervalCode(c, lo, 0)) && |code| < 32768
    ensures 0 <= k && k + 3 + |c| <= |code| && |IntervalCode(c, lo, 0)| == 3 + |c| && At(code, k + 3, c)
    ensures code[k] == JUMP && Target(code, k) == k + 3 + |c|
  {
    hide Store, Extract, Op1;
    AtSplit(code, k, Op1(JUMP, |c|), c);
    AtOp1(code, k, JUMP, |c|);
  }

  lemma CountCommands(c: seq<byte>, lo: int, hi: int, code: seq<byte>, k: int, body: set<int>) returns (y: set<int>)
    requires At(code, k, IntervalCode(c, lo, hi)) && |code| < 32768 && 0 <= lo <= hi <= RE_DUP_MAX
    requires var b := k + if hi == 0 then 3 else if hi == 1 then 10 else 15; Commands(code, body, b, b + |c|)
    ensures Commands(code, y, k, k + |IntervalCode(c, lo, hi)|)
  {
    hide Commands, IntervalCode, At, Extract;
    if hi == 0 {
      NoneCode(c, lo, code, k);
      Before(code, k, body, k + 3 + |c|);
      y := {k} + body;
    } else if hi == 1 {
      IntervalOneLayout(c, lo, code, k);
      Before(code, k + 5, body, k + 10 + |c|);
      Before(code, k, {k + 5} + body, k + 10 + |c|);
      y := {k} + ({k + 5} + body);
    } else {
      IntervalHead(c, lo, hi, code, k);
      IntervalTail(c, lo, hi, code, k);
      var j := k + 15 + |c|;
      Around(code, k + 10, body, j, j + 5);
      var loop := {k + 10} + body + {j};
      Before(code, k + 5, loop, j + 5);
      Before(code, k, {k + 5} + loop, j + 5);
      y := {k} + ({k + 5} + loop);
    }
  }

  // ---- whole patterns ----

  /** In the code of every pattern that is read, whatever its loops and intervals apply to, commands follow each
      other without gaps and every jump lands on one of them or on the end. */
  lemma PatternCommands(pattern: seq<byte>) returns (y: set<int>)
    requires ReadPattern(pattern).Read? && |CodeAlts(ReadPattern(pattern).alts, 0)| < 32768
    ensures var code := CodeAlts(ReadPattern(pattern).alts, 0); Commands(code, y, 0, |code|)
  {
    hide Commands, CodeAlts, ReadPattern, ShapedAlts;
    ReadShaped(pattern);
    var alts := ReadPattern(pattern).alts;
    WholeCode(CodeAlts(alts, 0));
    y := AltsCommands(alts, 0, CodeAlts(alts, 0), 0);
  }
}
