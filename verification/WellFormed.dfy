/** The static shape of compiled patterns that the matcher and the fastmap rely on: a set of entry
    points, where a one-character loop or interval counts as a single entry point. */
module WellFormed {
  import opened Bytes
  import opened Opcodes
  import opened Regex
  import opened Code
  import opened Machine
  import opened CompilerCorrect

  /** The command at `p` is one the model covers and every place it leads to is in `y`. */
  predicate WfAt(code: seq<byte>, p: int, y: set<int>) {
    Fits(code, p) &&
    var op := code[p];
    if op == EXACTN then code[p + 1] >= 1 && p + OpLen(code, p) in y
    else if op == ANYCHAR || op == CHARSET || op == CHARSET_NOT then OneChar(code, p) && p + OpLen(code, p) in y
    else if op == START_MEMORY || op == STOP_MEMORY || op == PUSH_DUMMY_FAILURE then p + OpLen(code, p) in y
    else if op == JUMP_PAST_ALT then
      && Extract(code, p + 1) >= 0 && Target(code, p) in y
      && (Extract(code, p + 1) == 0 ==> p + 3 == |code| || code[p + 3] == PUSH_DUMMY_FAILURE)
    else if op == ON_FAILURE_JUMP then
      if IsLoop(code, p) then LoopEnd(code, p) + 3 in y
      else Extract(code, p + 1) >= 0 && p + 3 in y && Target(code, p) in y
    else if op == DUMMY_FAILURE_JUMP then
      IsLoop(code, p + 3) && Target(code, p) == p + 6 && p + 3 in y && LoopEnd(code, p + 3) + 3 in y
    else op == SET_NUMBER_AT && IsInterval(code, p) && IntervalExit(code, p) in y
  }

  /** How far the command, loop or interval at `p` reaches. */
  function Span(code: seq<byte>, p: int): (n: nat)
    ensures n > 0
  {
    if IsLoop(code, p) then LoopEnd(code, p) + 3 - p
    else if IsInterval(code, p) then IntervalExit(code, p) - p
    else if 0 <= p < |code| then OpLen(code, p)
    else 1
  }

  /** The entry points `x` make up the code from `lo` to `hi`. */
  ghost predicate Block(code: seq<byte>, x: set<int>, lo: int, hi: int) {
    && 0 <= lo <= hi <= |code| && lo in x + {hi}
    && (forall p :: p in x ==> WfAt(code, p, x + {hi}))
    && (forall p :: p in x ==> lo <= p && p + Span(code, p) <= hi)
    && (forall p, q :: p in x && q in x && p < q ==> p + Span(code, p) <= q)
  }

  /** A whole compiled pattern. */
  ghost predicate WfProgram(code: seq<byte>, x: set<int>) {
    Block(code, x, 0, |code|)
  }

  /** The part of well-formedness that concerns where commands lead. */
  ghost predicate Closed(code: seq<byte>, x: set<int>) {
    forall p :: p in x ==> WfAt(code, p, x + {|code|})
  }

  /** The code up to `hi` does not end in a jump_past_alt. */
  ghost predicate NoLastJump(code: seq<byte>, x: set<int>, hi: int) {
    hi - 3 in x ==> !(0 <= hi - 3 < |code| && code[hi - 3] == JUMP_PAST_ALT)
  }

  /** The command, loop or interval at an entry point. */
  datatype Command =
    | Match(n: nat, next: int)
    | Take(next: int)
    | Skip(next: int)
    | Dummy(next: int)
    | Goto(target: int)
    | Choice(first: int, second: int)
    | Loop(exit: int)
    | PlusLoop(exit: int)
    | Count(exit: int)

  function Decode(code: seq<byte>, p: int): Command
    requires Fits(code, p)
  {
    var op := code[p];
    if op == EXACTN then Match(code[p + 1], p + OpLen(code, p))
    else if op == ANYCHAR || op == CHARSET || op == CHARSET_NOT then Take(p + OpLen(code, p))
    else if op == PUSH_DUMMY_FAILURE then Dummy(p + 1)
    else if op == JUMP_PAST_ALT then Goto(Target(code, p))
    else if op == ON_FAILURE_JUMP then
      if IsLoop(code, p) then Loop(LoopEnd(code, p) + 3) else Choice(p + 3, Target(code, p))
    else if op == DUMMY_FAILURE_JUMP && IsLoop(code, p + 3) then PlusLoop(LoopEnd(code, p + 3) + 3)
    else if op == SET_NUMBER_AT && IsInterval(code, p) then Count(IntervalExit(code, p))
    else Skip(p + OpLen(code, p))
  }

  /** Every place a command of a closed program leads to is a later entry point or the end. */
  predicate Leads(c: Command, p: int, x: set<int>, end: int) {
    match c
    case Match(n, next) => 1 <= n && p < next && next in x + {end}
    case Take(next) => p < next && next in x + {end}
    case Skip(next) => p < next && next in x + {end}
    case Dummy(next) => p < next && next in x + {end}
    case Goto(target) => p < target && target in x + {end}
    case Choice(first, second) => p < first && p < second && first in x + {end} && second in x + {end}
    case Loop(exit) => p < exit && exit in x + {end}
    case PlusLoop(exit) => p + 3 < exit && exit in x + {end} && p + 3 in x
    case Count(exit) => p < exit && exit in x + {end}
  }

  /** What lies at an entry point, for each kind of command. */
  predicate Shape(code: seq<byte>, p: int, c: Command)
    requires Fits(code, p)
  {
    match c
    case Match(n, next) => code[p] == EXACTN && code[p + 1] == n && next == p + 2 + n
    case Take(next) => code[p] != EXACTN && OneChar(code, p) && next == p + OpLen(code, p)
    case Skip(next) => (code[p] == START_MEMORY || code[p] == STOP_MEMORY) && next == p + 3
    case Dummy(next) => code[p] == PUSH_DUMMY_FAILURE && next == p + 1
    case Goto(target) => code[p] == JUMP_PAST_ALT && target == Target(code, p)
    case Choice(first, second) => code[p] == ON_FAILURE_JUMP && !IsLoop(code, p) && first == p + 3 && second == Target(code, p)
    case Loop(exit) => IsLoop(code, p) && exit == LoopEnd(code, p) + 3
    case PlusLoop(exit) =>
      code[p] == DUMMY_FAILURE_JUMP && Target(code, p) == p + 6 && IsLoop(code, p + 3) && exit == LoopEnd(code, p + 3) + 3
    case Count(exit) => code[p] == SET_NUMBER_AT && IsInterval(code, p) && exit == IntervalExit(code, p)
  }

  lemma DecodeShape(code: seq<byte>, p: int, y: set<int>)
    requires WfAt(code, p, y)
    ensures Shape(code, p, Decode(code, p))
  {
    hide Extract, IsLoop, IsInterval;
  }

  lemma DecodeGoes(code: seq<byte>, p: int, x: set<int>, end: int)
    requires WfAt(code, p, x + {end}) && (end == |code| || forall q :: q in x ==> q <= end)
    ensures Leads(Decode(code, p), p, x, end)
  {
    hide Extract, OneChar;
    if code[p] == DUMMY_FAILURE_JUMP {
      hide IsLoop;
    }
  }

  lemma DecodeLeads(code: seq<byte>, x: set<int>, p: int)
    requires Closed(code, x) && p in x
    ensures Fits(code, p) && Leads(Decode(code, p), p, x, |code|) && Shape(code, p, Decode(code, p))
  {
    hide Decode, Leads, Shape;
    assert WfAt(code, p, x + {|code|});
    DecodeShape(code, p, x + {|code|});
    DecodeGoes(code, p, x, |code|);
  }

  lemma WfMono(code: seq<byte>, p: int, y: set<int>, z: set<int>)
    requires WfAt(code, p, y) && y <= z
    ensures WfAt(code, p, z)
  {}

  lemma Join(code: seq<byte>, x: set<int>, lo: int, mid: int, y: set<int>, hi: int)
    requires Block(code, x, lo, mid) && Block(code, y, mid, hi)
    ensures Block(code, x + y, lo, hi)
  {
    hide WfAt, Span;
    forall p | p in x + y
      ensures WfAt(code, p, x + y + {hi})
    {
      if p in x {
        WfMono(code, p, x + {mid}, x + y + {hi});
      } else {
        WfMono(code, p, y + {hi}, x + y + {hi});
      }
    }
  }

  lemma JumpSpan(code: seq<byte>, p: int)
    requires 0 <= p < |code| && code[p] == JUMP_PAST_ALT
    ensures Span(code, p) == 3
  {}

  lemma EndJoin(code: seq<byte>, x: set<int>, lo: int, mid: int, y: set<int>, hi: int)
    requires Block(code, x, lo, mid) && Block(code, y, mid, hi) && NoLastJump(code, x, mid) && NoLastJump(code, y, hi)
    ensures NoLastJump(code, x + y, hi)
  {
    hide WfAt, Span;
    var p := hi - 3;
    if p in x && 0 <= p < |code| && code[p] == JUMP_PAST_ALT {
      JumpSpan(code, p);
    }
  }

  lemma EndSingle(code: seq<byte>, x: set<int>, p: int, hi: int)
    requires x == {p} && 0 <= p < |code| && code[p] != JUMP_PAST_ALT
    ensures NoLastJump(code, x, hi)
  {}

  /** A command whose only successor is the one behind it. */
  lemma SingleBlock(code: seq<byte>, lo: int, hi: int)
    requires 0 <= lo < hi <= |code| && WfAt(code, lo, {lo, hi}) && lo + Span(code, lo) == hi
    ensures Block(code, {lo}, lo, hi)
  {
    assert {lo} + {hi} == {lo, hi};
  }

  /** A choice around a block is not mistaken for a loop. */
  lemma NotLoop(code: seq<byte>, x: set<int>, k: int, hi: int)
    requires Block(code, x, k + 3, hi) && 0 <= k && k + 3 <= |code| && Target(code, k) == hi
    ensures !IsLoop(code, k)
  {
    if IsLoop(code, k) {
      var m := k + 3 + OpLen(code, k + 3);
      assert OneChar(code, k + 3) && m + 3 == hi && code[m] == MAYBE_POP_JUMP;
      hide IsLoop, WfAt, OneChar, Span, Target;
      assert k + 3 in x;
      WfChar(code, k + 3, x + {hi});
      assert m in x;
      WfOp(code, m, x + {hi});
    }
  }

  lemma WfChar(code: seq<byte>, p: int, y: set<int>)
    requires WfAt(code, p, y) && OneChar(code, p)
    ensures p + OpLen(code, p) in y
  {}

  lemma WfOp(code: seq<byte>, p: int, y: set<int>)
    requires WfAt(code, p, y)
    ensures 0 <= p < |code| && code[p] != MAYBE_POP_JUMP
  {
    hide IsLoop, IsInterval, OneChar, Extract;
  }

  // ---- which expressions compile to such code ----

  /** Loops and intervals on one-character operands only. */
  predicate SimpleLoops(n: Node) {
    match n
    case Group(alts) => SimpleLoopsAlts(alts)
    case Repeat(operand, ops) => (ManyOk(ops) ==> CharNode(operand)) && SimpleLoops(operand)
    case Interval(operand, _, _) => CharNode(operand) && UpperOf(n) > 0
    case _ => true
  }

  predicate SimpleLoopsBranch(b: seq<Node>) {
    |b| == 0 || (SimpleLoopsBranch(b[..|b| - 1]) && SimpleLoops(b[|b| - 1]))
  }

  predicate SimpleLoopsAlts(alts: seq<Branch>) {
    |alts| == 0 || (SimpleLoopsBranch(alts[0].nodes) && SimpleLoopsAlts(alts[1..]))
  }

  /** No repeated bracket expression needs all 32 bytes of its bitmap: it has no character above 247. */
  predicate SmallSets(n: Node) {
    match n
    case Group(alts) => SmallSetsAlts(alts)
    case Repeat(operand, ops) =>
      (ManyOk(ops) && operand.CharSet? && !operand.negated ==> |Trim(Bitmap(operand.items))| < 32) && SmallSets(operand)
    case _ => true
  }

  predicate SmallSetsBranch(b: seq<Node>) {
    |b| == 0 || (SmallSetsBranch(b[..|b| - 1]) && SmallSets(b[|b| - 1]))
  }

  predicate SmallSetsAlts(alts: seq<Branch>) {
    |alts| == 0 || (SmallSetsBranch(alts[0].nodes) && SmallSetsAlts(alts[1..]))
  }

  /** A loop over a `charset` whose size in bits does not fit a byte. */
  predicate Wraps(code: seq<byte>, q: int) {
    IsLoop(code, q) && code[q + 3] == CHARSET && code[q + 4] == 32
  }

  ghost predicate NoWraps(code: seq<byte>, x: set<int>) {
    forall q :: q in x ==> !Wraps(code, q)
  }

  lemma NoWrapsUnion(code: seq<byte>, x: set<int>, y: set<int>)
    requires NoWraps(code, x) && NoWraps(code, y)
    ensures NoWraps(code, x + y)
  {
    hide Wraps;
  }

  lemma NoWrapsAt(code: seq<byte>, k: int)
    requires !IsLoop(code, k)
    ensures NoWraps(code, {k})
  {
    hide IsLoop;
  }

  lemma {:induction false} NodeBlock(n: Node, g: nat, code: seq<byte>, k: int) returns (x: set<int>)
    requires Compilable(n) && SimpleLoops(n) && At(code, k, CodeNode(n, g)) && |code| < 32768
    ensures Block(code, x, k, k + |CodeNode(n, g)|) && NoLastJump(code, x, k + |CodeNode(n, g)|)
    ensures SmallSets(n) ==> NoWraps(code, x)
    decreases n, 0
  {
    hide Block, NoWraps, At, NoLastJump;
    match n
    case Exact(lits) => x := LeafBlock(n, g, code, k);
    case AnyChar => x := LeafBlock(n, g, code, k);
    case CharSet(_, _) => x := LeafBlock(n, g, code, k);
    case Interval(_, _, _) => x := LeafBlock(n, g, code, k);
    case Group(alts) => x := GroupBlock(alts, g, code, k);
    case Repeat(operand, ops) => x := RepeatBlock(operand, ops, g, code, k);
    case Skipped(ops) =>
      x := {};
      SkippedBlock(ops, g, code, k);
    case Stray => x := StrayBlock(g, code, k);
  }

  lemma SkippedBlock(ops: seq<RepeatOp>, g: nat, code: seq<byte>, k: int)
    requires At(code, k, CodeNode(Skipped(ops), g))
    ensures Block(code, {}, k, k + |CodeNode(Skipped(ops), g)|) && NoWraps(code, {}) && NoLastJump(code, {}, k + |CodeNode(Skipped(ops), g)|)
  {}

  lemma StrayBlock(g: nat, code: seq<byte>, k: int) returns (x: set<int>)
    requires At(code, k, CodeNode(Stray, g))
    ensures Block(code, x, k, k + |CodeNode(Stray, g)|) && NoWraps(code, x) && NoLastJump(code, x, k + |CodeNode(Stray, g)|)
  {
    x := {k};
    StrayAt(code, k, g);
    SingleBlock(code, k, k + 1);
  }

  lemma LeafBlock(n: Node, g: nat, code: seq<byte>, k: int) returns (x: set<int>)
    requires n.Exact? || n.AnyChar? || n.CharSet? || (n.Interval? && UpperOf(n) > 0)
    requires Compilable(n) && At(code, k, CodeNode(n, g)) && |code| < 32768
    ensures Block(code, x, k, k + |CodeNode(n, g)|) && NoWraps(code, x) && NoLastJump(code, x, k + |CodeNode(n, g)|)
  {
    hide CodeNode, Block, WfAt, Span, At, Compilable, UpperOf, NoWraps, NoLastJump;
    x := {k};
    var hi := k + |CodeNode(n, g)|;
    LeafEntry(n, g, code, k);
    SingleBlock(code, k, hi);
    NoWrapsAt(code, k);
    EndSingle(code, x, k, hi);
  }

  lemma LeafEntry(n: Node, g: nat, code: seq<byte>, k: int)
    requires n.Exact? || n.AnyChar? || n.CharSet? || (n.Interval? && UpperOf(n) > 0)
    requires Compilable(n) && At(code, k, CodeNode(n, g)) && |code| < 32768
    ensures var hi := k + |CodeNode(n, g)|; 0 <= k < hi <= |code| && WfAt(code, k, {k, hi}) && k + Span(code, k) == hi
    ensures !IsLoop(code, k) && code[k] != JUMP_PAST_ALT
  {
    match n
    case Exact(lits) => ExactShape(lits, g, code, k);
    case AnyChar => CharEntry(n, g, code, k);
    case CharSet(_, _) => CharEntry(n, g, code, k);
    case Interval(_, _, _) => IntervalEntry(n, g, code, k);
  }

  lemma IntervalEntry(n: Node, g: nat, code: seq<byte>, k: int)
    requires n.Interval? && UpperOf(n) > 0 && Compilable(n) && At(code, k, CodeNode(n, g)) && |code| < 32768
    ensures var hi := k + |CodeNode(n, g)|; 0 <= k < hi <= |code| && WfAt(code, k, {k, hi}) && k + Span(code, k) == hi
    ensures !IsLoop(code, k) && code[k] != JUMP_PAST_ALT
  {
    hide CodeNode, At, Compilable, Extract, OneChar;
    IntervalShape(n, g, code, k);
  }

  lemma CharEntry(n: Node, g: nat, code: seq<byte>, k: int)
    requires (n.AnyChar? || n.CharSet?) && At(code, k, CodeNode(n, g))
    ensures var hi := k + |CodeNode(n, g)|; 0 <= k < hi <= |code| && WfAt(code, k, {k, hi}) && k + Span(code, k) == hi
    ensures !IsLoop(code, k) && code[k] != JUMP_PAST_ALT
  {
    hide CodeNode, HasBit;
    CharMeaning(n, g, code, k, [], 0, 0);
    assert code[k] == CodeNode(n, g)[0];
  }

  lemma ExactShape(lits: seq<Literal>, g: nat, code: seq<byte>, k: int)
    requires 1 <= |lits| <= 255 && At(code, k, CodeNode(Exact(lits), g))
    ensures Fits(code, k) && code[k] == EXACTN && code[k + 1] == |lits|
  {
    var c := CodeNode(Exact(lits), g);
    var s := code[k..k + |c|];
    assert code[k] == s[0] && code[k + 1] == s[1];
  }

  lemma NoWrapsNone(code: seq<byte>)
    ensures NoWraps(code, {})
  {}

  lemma EmptyBlock(b: seq<Node>, g: nat, code: seq<byte>, k: int)
    requires |b| == 0 && At(code, k, CodeBranch(b, g))
    ensures CodeBranch(b, g) == [] && Block(code, {}, k, k) && NoLastJump(code, {}, k)
  {}

  lemma BranchUnfold(b: seq<Node>, g: nat)
    requires |b| > 0
    ensures var init, last := b[..|b| - 1], b[|b| - 1];
            CodeBranch(b, g) == CodeBranch(init, g) + CodeNode(last, g + GroupsBranch(init))
  {
    hide CodeNode;
  }

  lemma {:induction false} BranchBlock(b: seq<Node>, g: nat, code: seq<byte>, k: int) returns (x: set<int>)
    requires CompilableBranch(b) && SimpleLoopsBranch(b) && At(code, k, CodeBranch(b, g)) && |code| < 32768
    ensures Block(code, x, k, k + |CodeBranch(b, g)|) && NoLastJump(code, x, k + |CodeBranch(b, g)|)
    ensures SmallSetsBranch(b) ==> NoWraps(code, x)
    decreases b, 0
  {
    hide SmallSets, NoWraps, NoLastJump, Block, CodeBranch, CodeNode, GroupsBranch, Compilable, SimpleLoops;
    if |b| == 0 {
      EmptyBlock(b, g, code, k);
      x := {};
      NoWrapsNone(code);
    } else {
      var init, last := b[..|b| - 1], b[|b| - 1];
      var h := g + GroupsBranch(init);
      var mid := k + |CodeBranch(init, g)|;
      BranchUnfold(b, g);
      AtSplit(code, k, CodeBranch(init, g), CodeNode(last, h));
      var x1 := BranchBlock(init, g, code, k);
      var x2 := NodeBlock(last, h, code, mid);
      Join(code, x1, k, mid, x2, k + |CodeBranch(b, g)|);
      EndJoin(code, x1, k, mid, x2, k + |CodeBranch(b, g)|);
      x := x1 + x2;
      if SmallSetsBranch(b) {
        NoWrapsUnion(code, x1, x2);
      }
    }
  }

  lemma AltEntries(code: seq<byte>, k: int, p: int, y: set<int>)
    requires 0 <= k && k + 3 <= p && p + 3 <= |code|
    requires code[k] == ON_FAILURE_JUMP && Target(code, k) == p + 3 && {k + 3, p + 3} <= y
    requires code[p] == JUMP_PAST_ALT && Target(code, p) >= p + 3 && Target(code, p) in y
    requires Target(code, p) == p + 3 ==> p + 3 == |code| || code[p + 3] == PUSH_DUMMY_FAILURE
    ensures WfAt(code, k, y) && WfAt(code, p, y) && Span(code, k) == 3 && Span(code, p) == 3
    ensures !IsLoop(code, k) && !IsLoop(code, p)
  {
    hide OneChar;
    assert code[p] != MAYBE_POP_JUMP;
  }

  /** Putting a choice, a block, the jump behind it and the block of the other alternatives together. */
  lemma AltBlock(code: seq<byte>, x1: set<int>, x2: set<int>, k: int, p: int, hi: int)
    requires Block(code, x1, k + 3, p) && Block(code, x2, p + 3, hi)
    requires 0 <= k && code[k] == ON_FAILURE_JUMP && Target(code, k) == p + 3
    requires code[p] == JUMP_PAST_ALT && Target(code, p) >= p + 3 && Target(code, p) in x2 + {hi}
    requires Target(code, p) == p + 3 ==> p + 3 == |code| || code[p + 3] == PUSH_DUMMY_FAILURE
    ensures Block(code, {k} + x1 + {p} + x2, k, hi) && !IsLoop(code, k) && !IsLoop(code, p)
  {
    hide WfAt, Span, Extract;
    var x := {k} + x1 + {p} + x2;
    AltEntries(code, k, p, x + {hi});
    forall q | q in x
      ensures WfAt(code, q, x + {hi})
    {
      if q in x1 {
        WfMono(code, q, x1 + {p}, x + {hi});
      } else if q in x2 {
        WfMono(code, q, x2 + {hi}, x + {hi});
      }
    }
  }

  /** The code of the last alternative. */
  function LastCode(alts: seq<Branch>, g: nat): seq<byte>
    requires |alts| > 0
  {
    if |alts| == 1 then CodeBranch(alts[0].nodes, g) else LastCode(alts[1..], g + GroupsBranch(alts[0].nodes))
  }

  /** The jump behind the last but one alternative goes somewhere, or to a push_dummy_failure. */
  predicate EndOk(alts: seq<Branch>, g: nat, code: seq<byte>, hi: int)
    requires |alts| > 0
  {
    |alts| > 1 && |LastCode(alts, g)| == 0 ==> hi == |code| || (0 <= hi < |code| && code[hi] == PUSH_DUMMY_FAILURE)
  }

  lemma EndRest(alts: seq<Branch>, g: nat, code: seq<byte>, hi: int)
    requires |alts| > 1 && EndOk(alts, g, code, hi)
    ensures EndOk(alts[1..], g + GroupsBranch(alts[0].nodes), code, hi)
    ensures |alts| == 2 && |CodeBranch(alts[1].nodes, g + GroupsBranch(alts[0].nodes))| == 0 ==>
            hi == |code| || (0 <= hi < |code| && code[hi] == PUSH_DUMMY_FAILURE)
  {
    var rest := alts[1..];
    assert rest[0] == alts[1];
    assert LastCode(alts, g) == LastCode(rest, g + GroupsBranch(alts[0].nodes));
  }

  lemma JoinAlts(alts: seq<Branch>, g: nat, code: seq<byte>, k: int, p: int, x1: set<int>, x2: set<int>)
    requires |alts| > 1 && At(code, k, CodeAlts(alts, g)) && |code| < 32768
    requires p == k + 3 + |CodeBranch(alts[0].nodes, g)| && Block(code, x1, k + 3, p)
    requires var h := g + GroupsBranch(alts[0].nodes);
             && Block(code, x2, p + 3, p + 3 + |CodeAlts(alts[1..], h)|)
             && (|alts| > 2 ==> p + 6 + |CodeBranch(alts[1].nodes, h)| in x2)
    requires EndOk(alts, g, code, k + |CodeAlts(alts, g)|)
    ensures Block(code, {k} + x1 + {p} + x2, k, k + |CodeAlts(alts, g)|) && !IsLoop(code, k) && !IsLoop(code, p)
  {
    hide Block, Extract, CodeAlts, CodeBranch, GroupsBranch, EndOk;
    AltLayout(alts, g, code, k);
    EndRest(alts, g, code, k + |CodeAlts(alts, g)|);
    AltBlock(code, x1, x2, k, p, k + |CodeAlts(alts, g)|);
  }

  lemma {:induction false} AltsBlock(alts: seq<Branch>, g: nat, code: seq<byte>, k: int) returns (x: set<int>)
    requires |alts| > 0 && CompilableAlts(alts) && SimpleLoopsAlts(alts)
    requires At(code, k, CodeAlts(alts, g)) && |code| < 32768 && EndOk(alts, g, code, k + |CodeAlts(alts, g)|)
    ensures Block(code, x, k, k + |CodeAlts(alts, g)|)
    ensures |alts| > 1 ==> k + 3 + |CodeBranch(alts[0].nodes, g)| in x
    ensures |alts| == 1 || |LastCode(alts, g)| > 0 ==> NoLastJump(code, x, k + |CodeAlts(alts, g)|)
    ensures SmallSetsAlts(alts) ==> NoWraps(code, x)
    decreases alts, 0
  {
    hide SmallSetsBranch, NoWraps, NoLastJump, LastCode, IsLoop, Block, Extract, CodeAlts, CodeBranch, GroupsBranch, At, EndOk;
    var first, h := alts[0].nodes, g + GroupsBranch(alts[0].nodes);
    if |alts| == 1 {
      OneAlt(alts, g);
      x := BranchBlock(first, g, code, k);
    } else {
      AltLayout(alts, g, code, k);
      var p := k + 3 + |CodeBranch(first, g)|;
      EndRest(alts, g, code, k + |CodeAlts(alts, g)|);
      var x1 := BranchBlock(first, g, code, k + 3);
      var x2 := AltsBlock(alts[1..], h, code, p + 3);
      assert alts[1..][0] == alts[1];
      JoinAlts(alts, g, code, k, p, x1, x2);
      x := {k} + x1 + {p} + x2;
      if SmallSetsAlts(alts) {
        AltNoWraps(code, k, x1, p, x2);
      }
      if |LastCode(alts, g)| > 0 {
        LastRest(alts, g);
        AltsEnd(code, k, x1, p, x2, k + |CodeAlts(alts, g)|);
      }
    }
  }

  /** Alternatives are no shorter than the last one. */
  lemma {:induction false} LastRest(alts: seq<Branch>, g: nat)
    requires |alts| > 0
    ensures |CodeAlts(alts, g)| >= |LastCode(alts, g)|
    ensures |alts| > 1 ==> LastCode(alts[1..], g + GroupsBranch(alts[0].nodes)) == LastCode(alts, g)
    ensures |alts| > 1 ==> |CodeAlts(alts[1..], g + GroupsBranch(alts[0].nodes))| >= |LastCode(alts, g)|
    decreases |alts|
  {
    hide CodeBranch, GroupsBranch, AltCode;
    if |alts| > 1 {
      LastRest(alts[1..], g + GroupsBranch(alts[0].nodes));
    }
  }

  lemma AltsEnd(code: seq<byte>, k: int, x1: set<int>, p: int, x2: set<int>, hi: int)
    requires Block(code, x1, k + 3, p) && Block(code, x2, p + 3, hi) && p + 3 < hi && NoLastJump(code, x2, hi) && k < p
    ensures NoLastJump(code, {k} + x1 + {p} + x2, hi)
  {
    hide WfAt, Span;
  }

  lemma AltNoWraps(code: seq<byte>, k: int, x1: set<int>, p: int, x2: set<int>)
    requires !IsLoop(code, k) && !IsLoop(code, p) && NoWraps(code, x1) && NoWraps(code, x2)
    ensures NoWraps(code, {k} + x1 + {p} + x2)
  {
    hide IsLoop;
  }

  lemma {:induction false} GroupBlock(alts: seq<Branch>, g: nat, code: seq<byte>, k: int) returns (x: set<int>)
    requires |alts| > 0 && CompilableAlts(alts) && SimpleLoopsAlts(alts)
    requires At(code, k, CodeGroup(alts, g)) && |code| < 32768
    ensures Block(code, x, k, k + |CodeGroup(alts, g)|) && NoLastJump(code, x, k + |CodeGroup(alts, g)|)
    ensures SmallSetsAlts(alts) ==> NoWraps(code, x)
    decreases alts, 1
  {
    hide SmallSetsAlts, NoWraps, CodeAlts, CodeGroup, Block, At, NoLastJump, LastCode;
    GroupLayout(alts, g, code, k);
    var n := GroupStart(g, k);
    var s := n + |CodeAlts(alts, g + 1)|;
    x := AltsBlock(alts, g + 1, code, n);
    if |alts| > 1 {
      x := SkipBehind(code, x, n, s, SmallSetsAlts(alts));
      s := s + 1;
    }
    if g + 1 <= MAX_REGNUM {
      x := SkipBehind(code, x, n, s, SmallSetsAlts(alts));
      SkipBlock(code, k);
      Join(code, {k}, k, n, x, s + 3);
      EndJoin(code, {k}, k, n, x, s + 3);
      if SmallSetsAlts(alts) {
        NoWrapsUnion(code, {k}, x);
      }
      x := {k} + x;
    }
  }

  /** A command that skips, behind a block. */
  lemma SkipBehind(code: seq<byte>, y: set<int>, lo: int, s: int, small: bool) returns (x: set<int>)
    requires Block(code, y, lo, s) && (small ==> NoWraps(code, y))
    requires Fits(code, s) && (code[s] == START_MEMORY || code[s] == STOP_MEMORY || code[s] == PUSH_DUMMY_FAILURE)
    ensures Block(code, x, lo, s + OpLen(code, s)) && NoLastJump(code, x, s + OpLen(code, s)) && (small ==> NoWraps(code, x))
  {
    hide NoWraps, NoLastJump, Block, OpLen;
    SkipBlock(code, s);
    Join(code, y, lo, s, {s}, s + OpLen(code, s));
    x := y + {s};
    EndSkip(code, y, lo, s);
    if small {
      NoWrapsUnion(code, y, {s});
    }
  }

  lemma EndSkip(code: seq<byte>, y: set<int>, lo: int, s: int)
    requires Block(code, y, lo, s) && Fits(code, s) && code[s] != JUMP_PAST_ALT
    ensures NoLastJump(code, y + {s}, s + OpLen(code, s))
  {
    hide WfAt, Span;
    var p := s + OpLen(code, s) - 3;
    if p in y && 0 <= p < |code| && code[p] == JUMP_PAST_ALT {
      JumpSpan(code, p);
    }
  }

  lemma SkipBlock(code: seq<byte>, p: int)
    requires Fits(code, p) && (code[p] == START_MEMORY || code[p] == STOP_MEMORY || code[p] == PUSH_DUMMY_FAILURE)
    ensures Block(code, {p}, p, p + OpLen(code, p)) && NoWraps(code, {p}) && NoLastJump(code, {p}, p + OpLen(code, p))
  {
    SingleBlock(code, p, p + OpLen(code, p));
  }

  lemma {:induction false} RepeatBlock(n: Node, ops: seq<RepeatOp>, g: nat, code: seq<byte>, k: int) returns (x: set<int>)
    requires Compilable(n) && SimpleLoops(n) && |ops| > 0 && (ManyOk(ops) ==> CharNode(n)) && |code| < 32768
    requires At(code, k, CodeNode(Repeat(n, ops), g))
    ensures Block(code, x, k, k + |CodeNode(Repeat(n, ops), g)|) && NoLastJump(code, x, k + |CodeNode(Repeat(n, ops), g)|)
    ensures SmallSets(Repeat(n, ops)) ==> NoWraps(code, x)
    decreases n, 1
  {
    hide SmallSets, NoWraps, NoLastJump, IsLoop, RepeatCode, Block, Extract, CodeNode, Compilable, SimpleLoops, ZeroOk, ManyOk;
    SmallRepeat(n, ops);
    var zero, many, c := ZeroOk(ops), ManyOk(ops), CodeNode(n, g);
    RepeatUnfold(n, ops, g);
    RepeatLayout(c, zero, many, code, k);
    var hi := k + |RepeatCode(c, zero, many)|;
    if many {
      var q := k + if zero then 0 else 3;
      CharMeaning(n, g, code, q + 3, [], 0, 0);
      LoopIs(code, q, hi);
      LoopBlock(code, q, hi);
      LoopNoWraps(n, g, code, q);
      x := {q};
      EndSingle(code, x, q, hi);
      if !zero {
        PlusBlock(code, k, hi);
        x := {k, k + 3};
        EndPlus(code, k, hi);
      }
    } else {
      var y := NodeBlock(n, g, code, k + 3);
      ChoiceBlock(code, y, k, hi);
      x := {k} + y;
      EndChoice(code, y, k, hi);
      if SmallSets(n) {
        NoWrapsAt(code, k);
        NoWrapsUnion(code, {k}, y);
      }
    }
  }

  lemma EndPlus(code: seq<byte>, k: int, hi: int)
    requires 0 <= k && k + 3 < |code| && code[k] != JUMP_PAST_ALT && code[k + 3] != JUMP_PAST_ALT
    ensures NoLastJump(code, {k, k + 3}, hi)
  {}

  lemma EndChoice(code: seq<byte>, y: set<int>, k: int, hi: int)
    requires 0 <= k < |code| && code[k] != JUMP_PAST_ALT && NoLastJump(code, y, hi)
    ensures NoLastJump(code, {k} + y, hi)
  {}

  lemma SmallRepeat(n: Node, ops: seq<RepeatOp>)
    ensures SmallSets(Repeat(n, ops)) <==> SmallSets(n) && (ManyOk(ops) ==> SmallOperand(n))
  {
    hide ManyOk;
  }

  predicate SmallOperand(n: Node) {
    n.CharSet? && !n.negated ==> |Trim(Bitmap(n.items))| < 32
  }

  lemma LoopIs(code: seq<byte>, q: int, hi: int)
    requires 0 <= q && q + 3 <= |code| && code[q] == ON_FAILURE_JUMP && OneChar(code, q + 3)
    requires var m := q + 3 + OpLen(code, q + 3); m + 3 == hi <= |code| && code[m] == MAYBE_POP_JUMP && Target(code, m) == q
    requires Target(code, q) == hi
    ensures IsLoop(code, q) && LoopEnd(code, q) + 3 == hi
  {
    hide Extract, OneChar;
  }

  lemma LoopNoWraps(n: Node, g: nat, code: seq<byte>, q: int)
    requires CharNode(n) && At(code, q + 3, CodeNode(n, g))
    ensures SmallOperand(n) ==> !Wraps(code, q)
    ensures SmallOperand(n) ==> NoWraps(code, {q})
    ensures SmallOperand(n) && q >= 3 && code[q - 3] == DUMMY_FAILURE_JUMP ==> NoWraps(code, {q - 3, q})
  {
    var c := CodeNode(n, g);
    var s := code[q + 3..q + 3 + |c|];
    if |c| > 1 {
      assert code[q + 3] == s[0] && code[q + 4] == s[1];
    } else {
      assert code[q + 3] == s[0];
    }
    hide Trim, Bitmap, Chars, CodeNode, OneChar, Extract;
  }

  lemma LoopBlock(code: seq<byte>, q: int, hi: int)
    requires IsLoop(code, q) && LoopEnd(code, q) + 3 == hi
    ensures Block(code, {q}, q, hi)
  {
    hide Extract;
    SingleBlock(code, q, hi);
  }

  lemma PlusBlock(code: seq<byte>, k: int, hi: int)
    requires 0 <= k && k + 3 <= |code| && code[k] == DUMMY_FAILURE_JUMP && Target(code, k) == k + 6
    requires IsLoop(code, k + 3) && LoopEnd(code, k + 3) + 3 == hi
    ensures Block(code, {k, k + 3}, k, hi)
  {
    hide Extract;
  }

  lemma ChoiceBlock(code: seq<byte>, y: set<int>, k: int, hi: int)
    requires Block(code, y, k + 3, hi)
    requires 0 <= k && code[k] == ON_FAILURE_JUMP && Target(code, k) == hi
    ensures Block(code, {k} + y, k, hi) && !IsLoop(code, k)
  {
    NotLoop(code, y, k, hi);
    var x := {k} + y;
    assert WfAt(code, k, x + {hi});
    assert Span(code, k) == 3;
    hide WfAt, Span;
    forall q | q in x
      ensures WfAt(code, q, x + {hi})
    {
      if q in y {
        WfMono(code, q, y + {hi}, x + {hi});
      }
    }
  }

  /** Every pattern whose loops and intervals are on single characters compiles to a well-formed program; it does not end in a
      jump_past_alt unless the last of several alternatives is empty. */
  lemma ProgramWf(alts: seq<Branch>) returns (x: set<int>)
    requires |alts| > 0 && CompilableAlts(alts) && SimpleLoopsAlts(alts) && |CodeAlts(alts, 0)| < 32768
    ensures WfProgram(CodeAlts(alts, 0), x)
    ensures |alts| == 1 || |LastCode(alts, 0)| > 0 ==> NoLastJump(CodeAlts(alts, 0), x, |CodeAlts(alts, 0)|)
    ensures SmallSetsAlts(alts) ==> NoWraps(CodeAlts(alts, 0), x)
  {
    var code := CodeAlts(alts, 0);
    assert code[0..|code|] == code;
    x := AltsBlock(alts, 0, code, 0);
  }
}
