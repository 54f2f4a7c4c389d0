/** The shape of the expressions that are read from patterns. */
module Shapes {
  import opened Bytes
  import opened Regex
  import opened CompilerCorrect
  import opened WellFormed
  import opened Reading

  /** What every expression read from a pattern satisfies: a repetition applies to a single character,
      bracket expression or group, an `exactn` never outgrows its count byte, bounds are in order. */
  predicate Shaped(n: Node) {
    match n
    case Exact(lits) => 1 <= |lits| <= 255
    case Group(alts) => |alts| > 0 && ShapedAlts(alts)
    case Repeat(operand, ops) => |ops| > 0 && Operand(operand) && !operand.Repeat? && Shaped(operand)
    case Interval(operand, lower, upper) =>
      BoundsOk(lower, upper) && (operand == Skipped([]) || (Operand(operand) && Shaped(operand)))
    case _ => true
  }

  predicate ShapedBranch(b: seq<Node>) {
    |b| == 0 || (ShapedBranch(b[..|b| - 1]) && Shaped(b[|b| - 1]))
  }

  predicate ShapedAlts(alts: seq<Branch>) {
    |alts| == 0 || (ShapedBranch(alts[0].nodes) && ShapedAlts(alts[1..]))
  }

  predicate ShapedStack(stack: seq<Frame>) {
    |stack| == 0 ||
    var last := stack[|stack| - 1];
    ShapedStack(stack[..|stack| - 1]) && ShapedAlts(last.done) && ShapedBranch(last.branch)
  }

  /** What the last expression and the next character have to do with each other. */
  predicate Follows(branch: seq<Node>, next: byte) {
    |branch| > 0 ==>
    var last := branch[|branch| - 1];
    && !last.Stray? && (last.Exact? && |last.lits| > 1 ==> !Separates(next)) && (last.Repeat? ==> !IsOp(next))
  }

  predicate ShapedReader(rd: Reader, next: byte) {
    ShapedStack(rd.stack) && ShapedAlts(rd.done) && ShapedBranch(rd.branch) && Follows(rd.branch, next)
  }

  lemma ShapedSnoc(b: seq<Node>, n: Node)
    ensures ShapedBranch(b + [n]) <==> ShapedBranch(b) && Shaped(n)
  {
    assert (b + [n])[..|b|] == b;
  }

  lemma {:induction false} ShapedAltsSnoc(done: seq<Branch>, b: Branch)
    ensures ShapedAlts(done + [b]) <==> ShapedAlts(done) && ShapedBranch(b.nodes)
  {
    if |done| == 0 {
      assert done + [b] == [b];
      assert ShapedAlts([]);
    } else {
      ShapedAltsSnoc(done[1..], b);
      assert (done + [b])[1..] == done[1..] + [b];
    }
  }

  lemma LastShaped(b: seq<Node>)
    requires |b| > 0 && ShapedBranch(b)
    ensures Shaped(b[|b| - 1])
  {}

  lemma PushShaped(rd: Reader, n: Node, at: byte, next: byte)
    requires ShapedReader(rd, at) && Shaped(n) && Follows([n], next)
    ensures ShapedReader(Push(rd, n), next)
  {
    ShapedSnoc(rd.branch, n);
  }

  lemma ReplaceShaped(rd: Reader, n: Node, at: byte, next: byte)
    requires ShapedReader(rd, at) && |rd.branch| > 0 && Shaped(n) && Follows([n], next)
    ensures ShapedReader(ReplaceLast(rd, n), next)
  {
    ShapedSnoc(rd.branch[..|rd.branch| - 1], n);
  }

  lemma AddLiteralShaped(rd: Reader, lit: Literal, at: byte, next: byte)
    requires ShapedReader(rd, at)
    ensures ShapedReader(AddLiteral(rd, lit, next), next)
  {
    if Joins(rd.branch, next) {
      LastShaped(rd.branch);
      ReplaceShaped(rd, Exact(rd.branch[|rd.branch| - 1].lits + [lit]), at, next);
    } else {
      PushShaped(rd, Exact([lit]), at, next);
    }
  }

  lemma RepeatedShaped(rd: Reader, ops: seq<RepeatOp>, at: byte, next: byte)
    requires ShapedReader(rd, at) && IsOp(at) && |ops| > 0 && !IsOp(next)
    ensures ShapedReader(Repeated(rd, ops), next)
  {
    if HasLast(rd.branch) {
      LastShaped(rd.branch);
      ReplaceShaped(rd, Repeat(rd.branch[|rd.branch| - 1], ops), at, next);
    } else {
      PushShaped(rd, Skipped(ops), at, next);
    }
  }

  lemma CountedShaped(rd: Reader, lower: seq<byte>, upper: UpperBound, next: byte)
    requires ShapedReader(rd, LBRACE) && BoundsOk(lower, upper)
    ensures ShapedReader(Counted(rd, lower, upper), next)
  {
    if HasLast(rd.branch) {
      LastShaped(rd.branch);
      ReplaceShaped(rd, Interval(rd.branch[|rd.branch| - 1], lower, upper), LBRACE, next);
    } else {
      PushShaped(rd, Interval(Skipped([]), lower, upper), LBRACE, next);
    }
  }

  lemma ClosedShaped(rd: Reader, at: byte, next: byte)
    requires ShapedReader(rd, at) && |rd.stack| > 0
    ensures ShapedReader(Closing(rd), next)
  {
    var frame, alts := rd.stack[|rd.stack| - 1], rd.done + [Branch(rd.branch)];
    ShapedAltsSnoc(rd.done, Branch(rd.branch));
    ShapedSnoc(frame.branch, Group(alts));
  }

  lemma OpeningShaped(rd: Reader, at: byte, next: byte)
    requires ShapedReader(rd, at)
    ensures ShapedReader(Opening(rd), next)
  {
    assert Opening(rd).stack[..|rd.stack|] == rd.stack;
  }

  lemma AlternativeShaped(rd: Reader, at: byte, next: byte)
    requires ShapedReader(rd, at)
    ensures ShapedReader(Alternative(rd), next)
  {
    ShapedAltsSnoc(rd.done, Branch(rd.branch));
  }

  lemma UnmatchedShaped(rd: Reader, at: byte, next: byte)
    requires ShapedReader(rd, at)
    ensures ShapedReader(Unmatched(rd, next), next)
  {
    var lit := Literal(CLOSE, false);
    if |rd.done| > 0 {
      ShapedSnoc(rd.branch, Stray);
      ShapedSnoc(rd.branch + [Stray], Exact([lit]));
    } else {
      AddLiteralShaped(rd, lit, at, next);
    }
  }

  lemma ReadNextShaped(pattern: seq<byte>, p: nat, rd: Reader)
    requires p < |pattern| && ShapedReader(rd, pattern[p]) && ReadNext(pattern, p, rd).Go?
    ensures var r := ReadNext(pattern, p, rd); ShapedReader(r.rd, Peek(pattern, r.p))
  {
    hide ShapedReader, ReadBraces, NextBracket, NextQuoted, Unmatched, AddLiteral, Repeated, Counted, Opening, Closing,
         Alternative, ReadOps, IsOp, Push, BoundsOk, Separates;
    var c, r := pattern[p], ReadNext(pattern, p, rd);
    var next := Peek(pattern, r.p);
    if c == CARET || c == DOLLAR {
    } else if IsOp(c) {
      ReadOpsText(pattern, p);
      SomeOps(pattern, p);
      RepeatedShaped(rd, ReadOps(pattern, p), c, next);
    } else if c == DOT {
      PushShaped(rd, AnyChar, c, next);
    } else if c == LBRACKET {
      BracketShaped(pattern, p + 1, rd, c);
    } else if c == OPEN {
      OpeningShaped(rd, c, next);
    } else if c == CLOSE {
      if |rd.stack| > 0 {
        ClosedShaped(rd, c, next);
      } else {
        UnmatchedShaped(rd, c, next);
      }
    } else if c == BAR {
      AlternativeShaped(rd, c, next);
    } else if c == LBRACE && ReadBraces(pattern, p + 1).Some? {
      var b := ReadBraces(pattern, p + 1).value;
      ReadBracesText(pattern, p + 1);
      CountedShaped(rd, b.lower, b.upper, next);
    } else if c == BACKSLASH {
      QuotedShaped(pattern, p + 1, rd, c);
    } else {
      AddLiteralShaped(rd, Literal(c, false), c, next);
    }
  }

  lemma SomeOps(pattern: seq<byte>, p: nat)
    requires p < |pattern| && IsOp(pattern[p])
    ensures |ReadOps(pattern, p)| > 0
  {}

  lemma BracketShaped(pattern: seq<byte>, p: nat, rd: Reader, at: byte)
    requires p <= |pattern| && ShapedReader(rd, at) && NextBracket(pattern, p, rd).Go?
    ensures var r := NextBracket(pattern, p, rd); ShapedReader(r.rd, Peek(pattern, r.p))
  {
    hide ShapedReader, ReadItems;
    var r := NextBracket(pattern, p, rd);
    var negated := pattern[p] == CARET;
    var first := if negated then p + 1 else p;
    PushShaped(rd, CharSet(negated, ReadItems(pattern, first, first, [], false).items), at, Peek(pattern, r.p));
  }

  lemma QuotedShaped(pattern: seq<byte>, p: nat, rd: Reader, at: byte)
    requires p < |pattern| && ShapedReader(rd, at) && NextQuoted(pattern, p, rd).Go?
    ensures var r := NextQuoted(pattern, p, rd); ShapedReader(r.rd, Peek(pattern, r.p))
  {
    hide ShapedReader;
    AddLiteralShaped(rd, Literal(pattern[p], true), at, Peek(pattern, p + 1));
  }

  lemma {:induction false} ReadFromShaped(pattern: seq<byte>, p: nat, rd: Reader)
    requires p <= |pattern| && ShapedReader(rd, Peek(pattern, p)) && ReadFrom(pattern, p, rd).Read?
    ensures ShapedAlts(ReadFrom(pattern, p, rd).alts) && |ReadFrom(pattern, p, rd).alts| > 0
    decreases |pattern| - p
  {
    if p == |pattern| {
      ShapedAltsSnoc(rd.done, Branch(rd.branch));
    } else {
      hide ReadNext, ShapedReader;
      ReadNextShaped(pattern, p, rd);
      var r := ReadNext(pattern, p, rd);
      ReadFromShaped(pattern, r.p, r.rd);
    }
  }

  /** Every expression read from a pattern has this shape. */
  lemma ReadShaped(pattern: seq<byte>)
    requires ReadPattern(pattern).Read?
    ensures ShapedAlts(ReadPattern(pattern).alts) && |ReadPattern(pattern).alts| > 0
  {
    ReadFromShaped(pattern, 0, Reader([], [], []));
  }

  // ---- with loops and intervals on single characters only, the compiler is correct for it ----

  lemma {:induction false} ShapedCompilable(n: Node)
    requires Shaped(n) && SimpleLoops(n)
    ensures Compilable(n)
    decreases n, 0
  {
    match n
    case Group(alts) => AltsCompilable(alts);
    case Repeat(operand, _) => ShapedCompilable(operand);
    case Interval(operand, lower, upper) =>
      if operand != Skipped([]) {
        assert Shaped(operand) && SimpleLoops(operand);
        ShapedCompilable(operand);
      }
    case _ =>
  }

  lemma {:induction false} BranchCompilable(b: seq<Node>)
    requires ShapedBranch(b) && SimpleLoopsBranch(b)
    ensures CompilableBranch(b)
    decreases b, 0
  {
    if |b| > 0 {
      BranchCompilable(b[..|b| - 1]);
      ShapedCompilable(b[|b| - 1]);
    }
  }

  lemma {:induction false} AltsCompilable(alts: seq<Branch>)
    requires ShapedAlts(alts) && SimpleLoopsAlts(alts)
    ensures CompilableAlts(alts)
    decreases alts, 0
  {
    if |alts| > 0 {
      BranchCompilable(alts[0].nodes);
      AltsCompilable(alts[1..]);
    }
  }
}
