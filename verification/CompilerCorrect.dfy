/** The code of an expression takes the machine across exactly the strings of its language. */
module CompilerCorrect {
  import opened Bytes
  import opened Opcodes
  import opened Regex
  import opened Code
  import opened Machine

  /** Expressions whose code is a single one-character command. */
  predicate CharNode(n: Node) {
    n.AnyChar? || n.CharSet? || (n.Exact? && |n.lits| == 1)
  }

  /** What may stand before a repetition operator. */
  predicate Operand(n: Node) {
    !n.Skipped? && !n.Stray? && (n.Exact? ==> |n.lits| == 1)
  }

  /** The shapes the compiler produces, with intervals only on one-character operands or `{0}`. */
  predicate Compilable(n: Node) {
    match n
    case Exact(lits) => 1 <= |lits| <= 255
    case Group(alts) => |alts| > 0 && CompilableAlts(alts)
    case Repeat(operand, ops) => |ops| > 0 && Operand(operand) && !operand.Repeat? && Compilable(operand)
    case Interval(operand, _, _) =>
      Operand(operand) && Compilable(operand) && 0 <= LowerOf(n) <= UpperOf(n) <= RE_DUP_MAX &&
      (UpperOf(n) > 0 ==> CharNode(operand))
    case _ => true
  }

  predicate CompilableBranch(b: seq<Node>) {
    |b| == 0 || (CompilableBranch(b[..|b| - 1]) && Compilable(b[|b| - 1]))
  }

  predicate CompilableAlts(alts: seq<Branch>) {
    |alts| == 0 || (CompilableBranch(alts[0].nodes) && CompilableAlts(alts[1..]))
  }

  // ---- one-character commands ----

  lemma BytesAt(code: seq<byte>, k: int, c: seq<byte>)
    requires At(code, k, c)
    ensures 0 <= k && k + |c| <= |code| && forall x :: 0 <= x < |c| ==> code[k + x] == c[x]
  {
    var s := code[k..k + |c|];
    assert forall x :: 0 <= x < |c| ==> code[k + x] == s[x];
  }

  lemma SetBytes(code: seq<byte>, k: int, op: byte, bm: seq<byte>)
    requires |bm| <= 32 && At(code, k, [op, |bm| as byte] + bm) && (op == CHARSET || op == CHARSET_NOT)
    ensures OneChar(code, k) && OpLen(code, k) == |bm| + 2 && code[k] == op && code[k + 1] == |bm|
    ensures k + 2 + code[k + 1] as int <= |code| && forall c: byte :: InMap(code, k, c) <==> InBitmap(bm, c)
  {
    hide HasBit, At;
    var set' := [op, |bm| as byte] + bm;
    BytesAt(code, k, set');
    assert code[k] == set'[0] && code[k + 1] == set'[1];
    forall i | 0 <= i < |bm|
      ensures code[k + 2 + i] == bm[i]
    {
      assert code[k + (2 + i)] == set'[2 + i];
    }
  }

  /** A bracket expression. */
  lemma SetMeaning(negated: bool, items: seq<SetItem>, g: nat, code: seq<byte>, k: int, t: seq<byte>, i: int, j: int)
    requires At(code, k, CodeNode(CharSet(negated, items), g))
    ensures OneChar(code, k) && OpLen(code, k) == |CodeNode(CharSet(negated, items), g)| > 0
    ensures Lang(CharSet(negated, items), t, i, j) <==> TakesAt(code, k, t, i) && j == i + 1
  {
    hide Trim, Bitmap, InItems, InMap, InBitmap, OneChar, At;
    BitmapMeaning(items, 0);
    SetBytes(code, k, if negated then CHARSET_NOT else CHARSET, Trim(Bitmap(items)));
    if 0 <= i < |t| {
      BitmapMeaning(items, t[i]);
    }
  }

  lemma CharMeaning(n: Node, g: nat, code: seq<byte>, k: int, t: seq<byte>, i: int, j: int)
    requires CharNode(n) && At(code, k, CodeNode(n, g))
    ensures OneChar(code, k) && OpLen(code, k) == |CodeNode(n, g)| > 0
    ensures Lang(n, t, i, j) <==> TakesAt(code, k, t, i) && j == i + 1
  {
    hide Trim, Bitmap, InItems, InMap, At;
    if n.CharSet? {
      SetMeaning(n.negated, n.items, g, code, k, t, i, j);
    } else {
      var c := CodeNode(n, g);
      BytesAt(code, k, c);
      assert code[k + 0] == c[0];
      if n.Exact? {
        assert code[k + 1] == c[1] && code[k + 2] == c[2] == n.lits[0].c;
      }
    }
  }

  lemma StepChar(n: Node, g: nat, code: seq<byte>, k: int, t: seq<byte>, i: int, b: Thread)
    requires CharNode(n) && At(code, k, CodeNode(n, g)) && 0 <= i <= |t|
    ensures Step(code, t, Thread(k, i), b) <==> Lang(n, t, i, i + 1) && b == Thread(k + |CodeNode(n, g)|, i + 1)
  {
    hide Step, CodeNode, Lang, Takes, At;
    CharMeaning(n, g, code, k, t, i, i + 1);
    StepOneChar(code, t, Thread(k, i), b);
  }

  lemma StepExact(lits: seq<Literal>, g: nat, code: seq<byte>, k: int, t: seq<byte>, i: int, b: Thread)
    requires 1 <= |lits| <= 255 && At(code, k, CodeNode(Exact(lits), g)) && 0 <= i <= |t|
    ensures Step(code, t, Thread(k, i), b) <==>
            Lang(Exact(lits), t, i, i + |lits|) && b == Thread(k + 2 + |lits|, i + |lits|)
  {
    hide Step;
    var n := |lits|;
    var head := [EXACTN, n as byte];
    assert CodeNode(Exact(lits), g) == head + Chars(lits);
    AtSplit(code, k, head, Chars(lits));
    var front := code[k..k + 2];
    assert code[k] == front[0] && code[k + 1] == front[1];
    StepExactn(code, t, Thread(k, i), b, n as byte);
    if i + n <= |t| {
      var s := t[i..i + n];
      assert forall x :: 0 <= x < n ==> t[i + x] == s[x];
      assert Lang(Exact(lits), t, i, i + n) <==> s == Chars(lits);
    }
  }

  // ---- intervals ----

  /** `{m,1}`: where its commands lie. */
  lemma IntervalOneLayout(c: seq<byte>, lo: int, code: seq<byte>, k: int)
    requires At(code, k, IntervalCode(c, lo, 1)) && |code| < 32768 && 0 <= lo <= 1
    ensures 0 <= k && k + 10 + |c| <= |code| && |IntervalCode(c, lo, 1)| == 10 + |c| && At(code, k + 10, c)
    ensures code[k] == SET_NUMBER_AT && Extract(code, k + 1) == 5 && Extract(code, k + 3) == lo
    ensures code[k + 5] == SUCCEED_N && Extract(code, k + 6) == |c| + 2 && Extract(code, k + 8) == lo
  {
    hide Store, Extract, Op2;
    var a, b := Op2(SET_NUMBER_AT, 5, lo), Op2(SUCCEED_N, |c| + 2, lo);
    AtSplit(code, k, a + b, c);
    AtSplit(code, k, a, b);
    AtOp2(code, k, SET_NUMBER_AT, 5, lo);
    AtOp2(code, k + 5, SUCCEED_N, |c| + 2, lo);
  }

  /** `{m,n}`: the commands in front of the operand. */
  lemma IntervalHead(c: seq<byte>, lo: int, hi: int, code: seq<byte>, k: int)
    requires At(code, k, IntervalCode(c, lo, hi)) && |code| < 32768 && 0 <= lo <= hi <= RE_DUP_MAX && hi > 1
    ensures 0 <= k && k + 20 + |c| <= |code| && |IntervalCode(c, lo, hi)| == 20 + |c| && At(code, k + 15, c)
    ensures code[k] == SET_NUMBER_AT && Extract(code, k + 1) == |c| + 15 && Extract(code, k + 3) == hi - 1
    ensures code[k + 5] == SET_NUMBER_AT && Extract(code, k + 6) == 5 && Extract(code, k + 8) == lo
    ensures code[k + 10] == SUCCEED_N && Extract(code, k + 11) == |c| + 7 && Extract(code, k + 13) == lo
  {
    hide Store, Extract, Op2;
    var a, b, s, j := Op2(SET_NUMBER_AT, |c| + 15, hi - 1), Op2(SET_NUMBER_AT, 5, lo),
                      Op2(SUCCEED_N, |c| + 7, lo), Op2(JUMP_N, -|c| - 8, hi - 1);
    IntervalManyCode(c, lo, hi);
    hide IntervalCode, At;
    AtSplit(code, k, a + b + s + c, j);
    AtSplit(code, k, a + b + s, c);
    AtSplit(code, k, a + b, s);
    AtSplit(code, k, a, b);
    AtOp2(code, k, SET_NUMBER_AT, |c| + 15, hi - 1);
    AtOp2(code, k + 5, SET_NUMBER_AT, 5, lo);
    AtOp2(code, k + 10, SUCCEED_N, |c| + 7, lo);
    AtFits(code, k + 15 + |c|, j);
  }

  /** The command behind it. */
  lemma IntervalTail(c: seq<byte>, lo: int, hi: int, code: seq<byte>, k: int)
    requires At(code, k, IntervalCode(c, lo, hi)) && |code| < 32768 && 0 <= lo <= hi <= RE_DUP_MAX && hi > 1
    ensures var j := k + 15 + |c|;
            0 <= j && j + 5 <= |code| && code[j] == JUMP_N && Extract(code, j + 1) == -|c| - 8 && Extract(code, j + 3) == hi - 1
  {
    hide Store, Extract, Op2;
    hide IntervalCode, At;
    var front := Op2(SET_NUMBER_AT, |c| + 15, hi - 1) + Op2(SET_NUMBER_AT, 5, lo) + Op2(SUCCEED_N, |c| + 7, lo) + c;
    var j := Op2(JUMP_N, -|c| - 8, hi - 1);
    IntervalManyCode(c, lo, hi);
    AtFits(code, k, IntervalCode(c, lo, hi));
    AtSplit(code, k, front, j);
    AtOp2(code, k + 15 + |c|, JUMP_N, -|c| - 8, hi - 1);
  }

  lemma IntervalManyCode(c: seq<byte>, lo: int, hi: int)
    requires hi > 1
    ensures IntervalCode(c, lo, hi) ==
            Op2(SET_NUMBER_AT, |c| + 15, hi - 1) + Op2(SET_NUMBER_AT, 5, lo) + Op2(SUCCEED_N, |c| + 7, lo) + c +
            Op2(JUMP_N, -|c| - 8, hi - 1)
  {
    hide Op2;
  }

  lemma AtFits(code: seq<byte>, k: int, c: seq<byte>)
    requires At(code, k, c)
    ensures 0 <= k && k + |c| <= |code|
  {}

  lemma IntervalOneShape(c: seq<byte>, lo: int, code: seq<byte>, k: int)
    requires At(code, k, IntervalCode(c, lo, 1)) && |code| < 32768 && 0 <= lo <= 1
    requires OneChar(code, k + 10) && OpLen(code, k + 10) == |c|
    ensures IsIntervalOne(code, k) && IntervalLower(code, k) == lo && IntervalUpper(code, k) == 1
    ensures IntervalExit(code, k) == k + |IntervalCode(c, lo, 1)|
  {
    hide Extract, OneChar, At, IntervalCode;
    IntervalOneLayout(c, lo, code, k);
  }

  lemma IntervalManyShape(c: seq<byte>, lo: int, hi: int, code: seq<byte>, k: int)
    requires At(code, k, IntervalCode(c, lo, hi)) && |code| < 32768 && 0 <= lo <= hi <= RE_DUP_MAX && hi > 1
    requires OneChar(code, k + 15) && OpLen(code, k + 15) == |c|
    ensures IsIntervalMany(code, k) && !IsIntervalOne(code, k)
    ensures IntervalLower(code, k) == lo && IntervalUpper(code, k) == hi
    ensures IntervalExit(code, k) == k + |IntervalCode(c, lo, hi)|
  {
    hide Extract, OneChar, At, IntervalCode;
    IntervalHead(c, lo, hi, code, k);
    IntervalTail(c, lo, hi, code, k);
  }

  lemma IntervalBodyAt(c: seq<byte>, lo: int, hi: int, code: seq<byte>, k: int)
    requires At(code, k, IntervalCode(c, lo, hi)) && |code| < 32768 && 0 <= lo <= hi <= RE_DUP_MAX && hi > 0
    ensures At(code, k + if hi == 1 then 10 else 15, c)
  {
    hide Extract, IntervalCode;
    if hi == 1 {
      IntervalOneLayout(c, lo, code, k);
    } else {
      IntervalHead(c, lo, hi, code, k);
    }
  }

  lemma IntervalShape(n: Node, g: nat, code: seq<byte>, k: int)
    requires n.Interval? && Compilable(n) && UpperOf(n) > 0
    requires At(code, k, CodeNode(n, g)) && |code| < 32768
    ensures IsInterval(code, k) && IntervalLower(code, k) == LowerOf(n) && IntervalUpper(code, k) == UpperOf(n)
    ensures IntervalExit(code, k) == k + |CodeNode(n, g)|
    ensures At(code, IntervalBody(code, k), CodeNode(n.operand, g))
  {
    var c, lo, hi := CodeNode(n.operand, g), LowerOf(n), UpperOf(n);
    assert CodeNode(n, g) == IntervalCode(c, lo, hi);
    hide Extract, IntervalCode, LowerOf, UpperOf;
    IntervalBodyAt(c, lo, hi, code, k);
    CharMeaning(n.operand, g, code, k + if hi == 1 then 10 else 15, [], 0, 0);
    hide CodeNode, Compilable, At;
    if hi == 1 {
      IntervalOneShape(c, lo, code, k);
    } else {
      IntervalManyShape(c, lo, hi, code, k);
    }
  }

  lemma {:induction false} PowerOfChar(n: Node, g: nat, code: seq<byte>, k: int, c: nat, t: seq<byte>, i: int, j: int)
    requires CharNode(n) && At(code, k, CodeNode(n, g)) && OneChar(code, k)
    ensures Power(n, [], c, t, i, j) <==> TakesRun(code, k, t, i, c) && j == i + c
    decreases c
  {
    if c > 0 {
      if Power(n, [], c, t, i, j) {
        var m := PowerFirst(n, [], c, t, i, j);
        CharMeaning(n, g, code, k, t, i, m);
        PowerOfChar(n, g, code, k, c - 1, t, m, j);
      }
      if TakesRun(code, k, t, i, c) && j == i + c {
        CharMeaning(n, g, code, k, t, i, i + 1);
        PowerOfChar(n, g, code, k, c - 1, t, i + 1, j);
        assert LangOps(n, [], t, i, i + 1);
      }
    }
  }

  lemma IntervalLang(n: Node, g: nat, code: seq<byte>, b: int, t: seq<byte>, i: int, j: int)
    requires n.Interval? && CharNode(n.operand) && 0 <= LowerOf(n)
    requires At(code, b, CodeNode(n.operand, g)) && OneChar(code, b)
    ensures Lang(n, t, i, j) <==>
            exists c: nat :: LowerOf(n) <= c <= UpperOf(n) && TakesRun(code, b, t, i, c) && j == i + c
  {
    hide CodeNode, Takes, OneChar, At;
    if Lang(n, t, i, j) {
      var c := IntervalCount(n, t, i, j);
      PowerOfChar(n.operand, g, code, b, c, t, i, j);
    }
    if c: nat :| LowerOf(n) <= c <= UpperOf(n) && TakesRun(code, b, t, i, c) && j == i + c {
      PowerOfChar(n.operand, g, code, b, c, t, i, j);
    }
  }

  lemma StepInterval(n: Node, g: nat, code: seq<byte>, k: int, t: seq<byte>, i: int, b: Thread)
    requires n.Interval? && Compilable(n) && UpperOf(n) > 0 && 0 <= i <= |t|
    requires At(code, k, CodeNode(n, g)) && |code| < 32768
    ensures Step(code, t, Thread(k, i), b) <==> Lang(n, t, i, b.d) && b.p == k + |CodeNode(n, g)|
  {
    IntervalShape(n, g, code, k);
    IntervalLang(n, g, code, IntervalBody(code, k), t, i, b.d);
    hide Lang, CodeNode, At, Compilable;
    StepIntervalAt(code, t, Thread(k, i), b);
  }

  // ---- a run through the code of an expression reads a string of its language ----

  lemma {:induction false} Sound(n: Node, g: nat, code: seq<byte>, t: seq<byte>, k: int, i: int, f: nat, e: int)
    returns (j: int, f': nat)
    requires Compilable(n) && At(code, k, CodeNode(n, g)) && |code| < 32768
    requires Run(code, t, Thread(k, i), f, e)
    ensures Lang(n, t, i, j)
    ensures f' <= f && Run(code, t, Thread(k + |CodeNode(n, g)|, j), f', e)
    decreases n, 0, 0
  {
    hide Step, Run, Extract, Store, Op1, Op2, RepeatCode, IntervalCode, AltCode;
    match n
    case Exact(lits) => j, f' := SoundLeaf(n, g, code, t, k, i, f, e);
    case AnyChar => j, f' := SoundLeaf(n, g, code, t, k, i, f, e);
    case CharSet(_, _) => j, f' := SoundLeaf(n, g, code, t, k, i, f, e);
    case Interval(_, _, _) => j, f' := SoundLeaf(n, g, code, t, k, i, f, e);
    case Group(alts) =>
      j, f' := SoundGroup(alts, g, code, t, k, i, f, e);
      LangAltsBounds(alts, t, i, j);
    case Repeat(operand, ops) =>
      var count;
      j, count, f' := SoundRepeat(operand, ops, g, code, t, k, i, f, e);
      CollapseComplete(operand, ops, count, t, i, j);
      OpsBounds(operand, ops, t, i, j);
    case Skipped(_) =>
      j, f' := i, f;
      RunBounds(code, t, Thread(k, i), f, e);
    case Stray =>
      StrayAt(code, k, g);
      RunBounds(code, t, Thread(k, i), f, e);
      RunSkip(code, t, k, i, f, e);
      j, f' := i, f - 1;
  }

  lemma StrayAt(code: seq<byte>, k: int, g: nat)
    requires At(code, k, CodeNode(Stray, g))
    ensures Fits(code, k) && code[k] == PUSH_DUMMY_FAILURE && OpLen(code, k) == 1 == |CodeNode(Stray, g)|
  {
    assert code[k] == code[k..k + 1][0];
  }

  lemma SoundLeaf(n: Node, g: nat, code: seq<byte>, t: seq<byte>, k: int, i: int, f: nat, e: int)
    returns (j: int, f': nat)
    requires n.Exact? || n.AnyChar? || n.CharSet? || n.Interval?
    requires Compilable(n) && At(code, k, CodeNode(n, g)) && |code| < 32768
    requires Run(code, t, Thread(k, i), f, e)
    ensures Lang(n, t, i, j)
    ensures f' <= f && Run(code, t, Thread(k + |CodeNode(n, g)|, j), f', e)
  {
    hide Step, Run;
    RunBounds(code, t, Thread(k, i), f, e);
    if n.Interval? && UpperOf(n) == 0 {
      NoneLayout(n, g, code, k);
      RunJump(code, t, k, i, f, e);
      j, f' := i, f - 1;
      assert Power(n.operand, [], 0, t, i, i);
    } else {
      LeafNotEmpty(n, g);
      var b := FirstStep(code, t, Thread(k, i), f, e);
      StepLeaf(n, g, code, k, t, i, b);
      j, f' := b.d, f - 1;
    }
  }

  lemma LeafNotEmpty(n: Node, g: nat)
    requires n.Exact? || n.AnyChar? || n.CharSet? || n.Interval?
    ensures |CodeNode(n, g)| > 0
  {}

  /** `{0}`: a jump over the operand. */
  lemma NoneLayout(n: Node, g: nat, code: seq<byte>, k: int)
    requires n.Interval? && UpperOf(n) == 0 && At(code, k, CodeNode(n, g)) && |code| < 32768
    ensures 0 <= k && k + 3 <= |code| && code[k] == JUMP && Target(code, k) == k + |CodeNode(n, g)|
  {
    var oc := CodeNode(n.operand, g);
    assert CodeNode(n, g) == IntervalCode(oc, LowerOf(n), 0);
    AtSplit(code, k, Op1(JUMP, |oc|), oc);
    AtOp1(code, k, JUMP, |oc|);
  }

  /** A leaf other than `{0}` is crossed in one move, by a string of its language. */
  lemma StepLeaf(n: Node, g: nat, code: seq<byte>, k: int, t: seq<byte>, i: int, b: Thread)
    requires n.Exact? || n.AnyChar? || n.CharSet? || (n.Interval? && UpperOf(n) > 0)
    requires Compilable(n) && 0 <= i <= |t| && At(code, k, CodeNode(n, g)) && |code| < 32768
    ensures Step(code, t, Thread(k, i), b) <==> Lang(n, t, i, b.d) && b.p == k + |CodeNode(n, g)|
  {
    hide Step;
    match n
    case Exact(lits) => StepExact(lits, g, code, k, t, i, b);
    case AnyChar => StepChar(n, g, code, k, t, i, b);
    case CharSet(_, _) => StepChar(n, g, code, k, t, i, b);
    case Interval(_, _, _) => StepInterval(n, g, code, k, t, i, b);
  }

  lemma {:induction false} LangAltsBounds(alts: seq<Branch>, t: seq<byte>, i: int, j: int)
    requires LangAlts(alts, t, i, j)
    ensures 0 <= i <= j <= |t|
    decreases alts, 0
  {
    hide Step, Run, Extract, Store, Op1, Op2, RepeatCode, IntervalCode, AltCode;
    if LangBranch(alts[0].nodes, t, i, j) {
      LangBranchBounds(alts[0].nodes, t, i, j);
    } else {
      LangAltsBounds(alts[1..], t, i, j);
    }
  }

  lemma {:induction false} LangBranchBounds(b: seq<Node>, t: seq<byte>, i: int, j: int)
    requires LangBranch(b, t, i, j)
    ensures 0 <= i <= j <= |t|
    decreases b, 0
  {
    if |b| > 0 {
      var m :| LangBranch(b[..|b| - 1], t, i, m) && Lang(b[|b| - 1], t, m, j);
      LangBranchBounds(b[..|b| - 1], t, i, m);
    }
  }

  lemma {:induction false} SoundBranch(b: seq<Node>, g: nat, code: seq<byte>, t: seq<byte>, k: int, i: int, f: nat, e: int)
    returns (j: int, f': nat)
    requires CompilableBranch(b) && At(code, k, CodeBranch(b, g)) && |code| < 32768
    requires Run(code, t, Thread(k, i), f, e)
    ensures LangBranch(b, t, i, j)
    ensures f' <= f && Run(code, t, Thread(k + |CodeBranch(b, g)|, j), f', e)
    decreases b, 0, 0
  {
    hide Step, Run, At, CodeNode, GroupsBranch, Compilable, Lang;
    if |b| == 0 {
      j, f' := i, f;
      RunBounds(code, t, Thread(k, i), f, e);
    } else {
      var init, last := b[..|b| - 1], b[|b| - 1];
      var h := g + GroupsBranch(init);
      AtSplit(code, k, CodeBranch(init, g), CodeNode(last, h));
      var m, f1 := SoundBranch(init, g, code, t, k, i, f, e);
      j, f' := Sound(last, h, code, t, k + |CodeBranch(init, g)|, m, f1, e);
    }
  }

  lemma OneAlt(alts: seq<Branch>, g: nat)
    requires |alts| == 1
    ensures CodeAlts(alts, g) == CodeBranch(alts[0].nodes, g)
  {}

  lemma AltUnfold(alts: seq<Branch>, g: nat)
    requires |alts| > 1
    ensures var h := g + GroupsBranch(alts[0].nodes);
            var past := |CodeBranch(alts[1].nodes, h)| + if |alts| > 2 then 3 else 0;
            && CodeAlts(alts, g) == AltCode(CodeBranch(alts[0].nodes, g), past) + CodeAlts(alts[1..], h)
            && |CodeAlts(alts[1..], h)| >= past && (|alts| == 2 ==> |CodeAlts(alts[1..], h)| == past)
  {
    hide CodeBranch, GroupsBranch, Op1;
    assert alts[1..][0] == alts[1];
  }

  /** The place of the jump behind the first of several alternatives, and what lies there. */
  lemma AltLayout(alts: seq<Branch>, g: nat, code: seq<byte>, k: int)
    requires |alts| > 1 && At(code, k, CodeAlts(alts, g)) && |code| < 32768
    ensures var c, h := CodeBranch(alts[0].nodes, g), g + GroupsBranch(alts[0].nodes);
            var p := k + 3 + |c|;
            && code[k] == ON_FAILURE_JUMP && Target(code, k) == p + 3
            && At(code, k + 3, c)
            && p + 3 <= |code| && code[p] == JUMP_PAST_ALT
            && Target(code, p) == p + 3 + |CodeBranch(alts[1].nodes, h)| + (if |alts| > 2 then 3 else 0)
            && At(code, p + 3, CodeAlts(alts[1..], h))
            && k + |CodeAlts(alts, g)| == p + 3 + |CodeAlts(alts[1..], h)|
            && (|alts| == 2 ==> Target(code, p) == k + |CodeAlts(alts, g)|)
  {
    hide Store, Extract, Op1, CodeAlts, CodeBranch, GroupsBranch;
    var c, h := CodeBranch(alts[0].nodes, g), g + GroupsBranch(alts[0].nodes);
    var past := |CodeBranch(alts[1].nodes, h)| + if |alts| > 2 then 3 else 0;
    var p := k + 3 + |c|;
    AltUnfold(alts, g);
    AltCodeLayout(c, past, CodeAlts(alts[1..], h), code, k);
  }

  lemma AltCodeLayout(c: seq<byte>, past: nat, rest: seq<byte>, code: seq<byte>, k: int)
    requires At(code, k, AltCode(c, past) + rest) && |code| < 32768 && past <= |rest|
    ensures var p := k + 3 + |c|;
            && 0 <= k && code[k] == ON_FAILURE_JUMP && Target(code, k) == p + 3
            && At(code, k + 3, c)
            && p + 3 <= |code| && code[p] == JUMP_PAST_ALT && Target(code, p) == p + 3 + past
            && At(code, p + 3, rest)
  {
    hide Store, Extract, Op1;
    var p := k + 3 + |c|;
    AtSplit(code, k, AltCode(c, past), rest);
    AtSplit(code, k, Op1(ON_FAILURE_JUMP, |c| + 3) + c, Op1(JUMP_PAST_ALT, past));
    AtSplit(code, k, Op1(ON_FAILURE_JUMP, |c| + 3), c);
    AtOp1(code, k, ON_FAILURE_JUMP, |c| + 3);
    AtOp1(code, p, JUMP_PAST_ALT, past);
  }

  /** The chain of jumps behind alternatives leads to the end of the last one. */
  lemma {:induction false} ChainSound(alts: seq<Branch>, g: nat, code: seq<byte>, t: seq<byte>, k: int, d: int, f: nat, e: int)
    requires |alts| > 1 && At(code, k, CodeAlts(alts, g)) && |code| < 32768
    requires Run(code, t, Thread(k + 3 + |CodeBranch(alts[0].nodes, g)|, d), f, e)
    ensures Run(code, t, Thread(k + |CodeAlts(alts, g)|, d), f, e)
    decreases |alts|
  {
    hide Step, Run, Extract, Store, Op1, Op2, RepeatCode, IntervalCode, AltCode;
    AltLayout(alts, g, code, k);
    var p := k + 3 + |CodeBranch(alts[0].nodes, g)|;
    var h := g + GroupsBranch(alts[0].nodes);
    RunJump(code, t, p, d, f, e);
    assert alts[1..][0] == alts[1];
    if |alts| > 2 {
      ChainSound(alts[1..], h, code, t, p + 3, d, f - 1, e);
    }
    RunMore(code, t, Thread(k + |CodeAlts(alts, g)|, d), f - 1, f, e);
  }

  lemma {:induction false} SoundAlts(alts: seq<Branch>, g: nat, code: seq<byte>, t: seq<byte>, k: int, i: int, f: nat, e: int)
    returns (j: int, f': nat)
    requires |alts| > 0 && CompilableAlts(alts) && At(code, k, CodeAlts(alts, g)) && |code| < 32768
    requires Run(code, t, Thread(k, i), f, e)
    ensures LangAlts(alts, t, i, j)
    ensures f' <= f && Run(code, t, Thread(k + |CodeAlts(alts, g)|, j), f', e)
    decreases alts, 0, 0
  {
    hide Step, Run, Extract, Store, Op1, Op2, RepeatCode, IntervalCode, AltCode;
    var first, h := alts[0].nodes, g + GroupsBranch(alts[0].nodes);
    if |alts| == 1 {
      j, f' := SoundBranch(first, g, code, t, k, i, f, e);
    } else {
      AltLayout(alts, g, code, k);
      var p := k + 3 + |CodeBranch(first, g)|;
      RunChoice(code, t, k, i, f, e);
      if Run(code, t, Thread(k + 3, i), f - 1, e) {
        j, f' := SoundBranch(first, g, code, t, k + 3, i, f - 1, e);
        ChainSound(alts, g, code, t, k, j, f', e);
      } else {
        j, f' := SoundAlts(alts[1..], h, code, t, p + 3, i, f - 1, e);
      }
    }
  }

  lemma GroupLayout(alts: seq<Branch>, g: nat, code: seq<byte>, k: int)
    requires |alts| > 0 && At(code, k, CodeGroup(alts, g))
    ensures var n := GroupStart(g, k);
            var s := n + |CodeAlts(alts, g + 1)| + if |alts| > 1 then 1 else 0;
            && 0 <= k && s <= |code| && At(code, n, CodeAlts(alts, g + 1))
            && (|alts| > 1 ==> code[s - 1] == PUSH_DUMMY_FAILURE)
            && (g + 1 <= MAX_REGNUM ==> s + 3 <= |code| && code[k] == START_MEMORY && code[s] == STOP_MEMORY)
            && k + |CodeGroup(alts, g)| == s + if g + 1 <= MAX_REGNUM then 3 else 0
  {
    hide CodeGroup, CodeAlts, GroupsAlts, At, GroupStart;
    GroupCodeIs(alts, g);
    var dummy := if |alts| > 1 then [PUSH_DUMMY_FAILURE] else [];
    if g + 1 <= MAX_REGNUM {
      var nested := (GroupsAlts(alts) % 256) as byte;
      GroupNumbered(code, k, [START_MEMORY, (g + 1) as byte, nested], CodeAlts(alts, g + 1), dummy, [STOP_MEMORY, (g + 1) as byte, nested]);
    } else {
      BodyAndDummy(code, k, CodeAlts(alts, g + 1), dummy);
    }
    GroupStartIs(g, k);
  }

  lemma GroupStartIs(g: nat, k: int)
    ensures GroupStart(g, k) == k + if g + 1 <= MAX_REGNUM then 3 else 0
  {}

  lemma GroupNumbered(code: seq<byte>, k: int, open: seq<byte>, body: seq<byte>, dummy: seq<byte>, close: seq<byte>)
    requires |open| == |close| == 3 && At(code, k, open + (body + dummy) + close)
    ensures 0 <= k && k + |body| + |dummy| + 6 <= |code| && At(code, k + 3, body)
    ensures code[k] == open[0] && code[k + 3 + |body| + |dummy|] == close[0]
    ensures |dummy| > 0 ==> code[k + 3 + |body|] == dummy[0]
  {
    hide At;
    Bracketed(code, k, open, body + dummy, close);
    BodyAndDummy(code, k + 3, body, dummy);
  }

  lemma Bracketed(code: seq<byte>, k: int, open: seq<byte>, inner: seq<byte>, close: seq<byte>)
    requires |open| == |close| == 3 && At(code, k, open + inner + close)
    ensures 0 <= k && k + |inner| + 6 <= |code| && At(code, k + 3, inner)
    ensures code[k] == open[0] && code[k + 3 + |inner|] == close[0]
  {
    hide At;
    AtSplit(code, k, open + inner, close);
    AtSplit(code, k, open, inner);
    FirstByte(code, k, open);
    FirstByte(code, k + 3 + |inner|, close);
  }

  lemma GroupCodeIs(alts: seq<Branch>, g: nat)
    ensures var inner := CodeAlts(alts, g + 1) + if |alts| > 1 then [PUSH_DUMMY_FAILURE] else [];
            var nested := (GroupsAlts(alts) % 256) as byte;
            CodeGroup(alts, g) == if g + 1 <= MAX_REGNUM then
                                    [START_MEMORY, (g + 1) as byte, nested] + inner + [STOP_MEMORY, (g + 1) as byte, nested]
                                  else inner
  {
    hide CodeAlts, GroupsAlts;
  }

  lemma FirstByte(code: seq<byte>, k: int, c: seq<byte>)
    requires At(code, k, c)
    ensures 0 <= k && k + |c| <= |code| && (|c| > 0 ==> code[k] == c[0])
  {
    if |c| > 0 {
      assert code[k] == code[k..k + |c|][0];
    }
  }

  lemma BodyAndDummy(code: seq<byte>, k: int, body: seq<byte>, dummy: seq<byte>)
    requires At(code, k, body + dummy)
    ensures 0 <= k && k + |body| + |dummy| <= |code| && At(code, k, body) && (|dummy| > 0 ==> code[k + |body|] == dummy[0])
  {
    hide At;
    AtSplit(code, k, body, dummy);
    FirstByte(code, k + |body|, dummy);
    FirstByte(code, k, body + dummy);
  }

  function GroupStart(g: nat, k: int): int {
    k + if g + 1 <= MAX_REGNUM then 3 else 0
  }

  /** Leaving the last alternative of a group leads past the group. */
  lemma RunGroupEnd(alts: seq<Branch>, g: nat, code: seq<byte>, t: seq<byte>, k: int, j: int, f: nat, e: int)
    requires |alts| > 0 && At(code, k, CodeGroup(alts, g))
    requires Run(code, t, Thread(GroupStart(g, k) + |CodeAlts(alts, g + 1)|, j), f, e)
    ensures Run(code, t, Thread(k + |CodeGroup(alts, g)|, j), f, e)
  {
    hide CodeAlts, CodeGroup, At, Step, Run;
    GroupLayout(alts, g, code, k);
    var n, f' := GroupStart(g, k) + |CodeAlts(alts, g + 1)|, f;
    if |alts| > 1 {
      RunSkip(code, t, n, j, f', e);
      n, f' := n + 1, f' - 1;
    }
    if g + 1 <= MAX_REGNUM {
      RunSkip(code, t, n, j, f', e);
      n, f' := n + 3, f' - 1;
    }
    RunMore(code, t, Thread(n, j), f', f, e);
  }

  lemma RunGroupStart(alts: seq<Branch>, g: nat, code: seq<byte>, t: seq<byte>, k: int, i: int, f: nat, e: int)
    requires |alts| > 0 && At(code, k, CodeGroup(alts, g))
    requires Run(code, t, Thread(k, i), f, e)
    ensures At(code, GroupStart(g, k), CodeAlts(alts, g + 1))
    ensures Run(code, t, Thread(GroupStart(g, k), i), f, e)
  {
    hide CodeAlts, CodeGroup, At, Step, Run;
    GroupLayout(alts, g, code, k);
    if g + 1 <= MAX_REGNUM {
      RunSkip(code, t, k, i, f, e);
      RunMore(code, t, Thread(k + 3, i), f - 1, f, e);
    }
  }

  lemma {:induction false} SoundGroup(alts: seq<Branch>, g: nat, code: seq<byte>, t: seq<byte>, k: int, i: int, f: nat, e: int)
    returns (j: int, f': nat)
    requires |alts| > 0 && CompilableAlts(alts) && At(code, k, CodeGroup(alts, g)) && |code| < 32768
    requires Run(code, t, Thread(k, i), f, e)
    ensures LangAlts(alts, t, i, j)
    ensures f' <= f && Run(code, t, Thread(k + |CodeGroup(alts, g)|, j), f', e)
    decreases alts, 1, 0
  {
    hide CodeAlts, CodeGroup, LangAlts, Step, Run, At;
    RunGroupStart(alts, g, code, t, k, i, f, e);
    j, f' := SoundAlts(alts, g + 1, code, t, GroupStart(g, k), i, f, e);
    RunGroupEnd(alts, g, code, t, k, j, f', e);
  }

  /** The choice before an operand and the jump behind it. */
  function OnceCode(c: seq<byte>, many: bool): seq<byte> {
    if many then Op1(ON_FAILURE_JUMP, |c| + 3) + c + Op1(MAYBE_POP_JUMP, -|c| - 6) else Op1(ON_FAILURE_JUMP, |c|) + c
  }

  lemma OnceLayout(c: seq<byte>, many: bool, code: seq<byte>, q: int)
    requires At(code, q, OnceCode(c, many)) && |code| < 32768
    ensures 0 <= q && q + 3 + |c| <= |code| && code[q] == ON_FAILURE_JUMP && At(code, q + 3, c)
    ensures Target(code, q) == q + |OnceCode(c, many)| && |OnceCode(c, many)| == |c| + if many then 6 else 3
    ensures many ==> var m := q + 3 + |c|; m + 3 <= |code| && code[m] == MAYBE_POP_JUMP && Target(code, m) == q
  {
    hide Store, Extract, Op1;
    hide At;
    var n := if many then |c| + 3 else |c|;
    AtFits(code, q, OnceCode(c, many));
    if many {
      AtSplit(code, q, Op1(ON_FAILURE_JUMP, n) + c, Op1(MAYBE_POP_JUMP, -|c| - 6));
      AtOp1(code, q + 3 + |c|, MAYBE_POP_JUMP, -|c| - 6);
    }
    AtSplit(code, q, Op1(ON_FAILURE_JUMP, n), c);
    AtOp1(code, q, ON_FAILURE_JUMP, n);
  }

  lemma RepeatLayout(c: seq<byte>, zero: bool, many: bool, code: seq<byte>, k: int)
    requires At(code, k, RepeatCode(c, zero, many)) && |code| < 32768
    ensures var q := k + if zero then 0 else 3;
            && 0 <= k && (!zero ==> code[k] == DUMMY_FAILURE_JUMP && Target(code, k) == k + 6)
            && q + 3 <= |code| && code[q] == ON_FAILURE_JUMP && At(code, q + 3, c)
            && Target(code, q) == k + |RepeatCode(c, zero, many)|
            && (many ==>
                  var m := q + 3 + |c|;
                  m + 3 <= |code| && code[m] == MAYBE_POP_JUMP && Target(code, m) == q && Target(code, q) == m + 3)
            && (!many ==> Target(code, q) == q + 3 + |c|)
  {
    hide *;
    RepeatOnce(c, zero, many);
    if zero {
      OnceLayout(c, many, code, k);
    } else {
      AtSplit(code, k, Op1(DUMMY_FAILURE_JUMP, 3), OnceCode(c, many));
      AtOp1(code, k, DUMMY_FAILURE_JUMP, 3);
      TargetIs(code, k);
      OnceLayout(c, many, code, k + 3);
    }
  }

  lemma RepeatOnce(c: seq<byte>, zero: bool, many: bool)
    ensures RepeatCode(c, zero, many) == if zero then OnceCode(c, many) else Op1(DUMMY_FAILURE_JUMP, 3) + OnceCode(c, many)
    ensures |Op1(DUMMY_FAILURE_JUMP, 3)| == 3
  {
    hide Op1;
  }

  lemma TargetIs(code: seq<byte>, k: int)
    requires 0 <= k && k + 3 <= |code|
    ensures Target(code, k) == k + 3 + Extract(code, k + 1)
  {}

  /** From the `on_failure_jump` of a loop. */
  lemma {:induction false} SoundLoop(n: Node, g: nat, code: seq<byte>, t: seq<byte>, q: int, i: int, f: nat, e: int)
    returns (j: int, count: nat, f': nat)
    requires Compilable(n) && |code| < 32768
    requires 0 <= q && q + 3 <= |code| && code[q] == ON_FAILURE_JUMP && At(code, q + 3, CodeNode(n, g))
    requires var m := q + 3 + |CodeNode(n, g)|;
             m + 3 <= |code| && code[m] == MAYBE_POP_JUMP && Target(code, m) == q && Target(code, q) == m + 3
    requires Run(code, t, Thread(q, i), f, e)
    ensures Power(n, [], count, t, i, j)
    ensures f' <= f && Run(code, t, Thread(Target(code, q), j), f', e)
    decreases n, 1, f
  {
    hide Step, Run, Extract, Store, Op1, Op2, RepeatCode, IntervalCode;
    RunBounds(code, t, Thread(q, i), f, e);
    RunChoice(code, t, q, i, f, e);
    if Run(code, t, Thread(Target(code, q), i), f - 1, e) {
      j, count, f' := i, 0, f - 1;
    } else {
      j, count, f' := SoundBody(n, g, code, t, q, i, f - 1, e);
    }
  }

  /** From the start of the body of a loop. */
  lemma {:induction false} SoundBody(n: Node, g: nat, code: seq<byte>, t: seq<byte>, q: int, i: int, f: nat, e: int)
    returns (j: int, count: nat, f': nat)
    requires Compilable(n) && |code| < 32768
    requires 0 <= q && q + 3 <= |code| && code[q] == ON_FAILURE_JUMP && At(code, q + 3, CodeNode(n, g))
    requires var m := q + 3 + |CodeNode(n, g)|;
             m + 3 <= |code| && code[m] == MAYBE_POP_JUMP && Target(code, m) == q && Target(code, q) == m + 3
    requires Run(code, t, Thread(q + 3, i), f, e)
    ensures count > 0 && Power(n, [], count, t, i, j)
    ensures f' <= f && Run(code, t, Thread(Target(code, q), j), f', e)
    decreases n, 1, f
  {
    hide Step, Run, Extract, Store, Op1, Op2, RepeatCode, IntervalCode;
    var m := q + 3 + |CodeNode(n, g)|;
    var x, f1 := Sound(n, g, code, t, q + 3, i, f, e);
    RunJump(code, t, m, x, f1, e);
    j, count, f' := SoundLoop(n, g, code, t, q, x, f1 - 1, e);
    assert LangOps(n, [], t, i, x);
    count := count + 1;
    assert Power(n, [], count - 1, t, x, j);
  }

  lemma RepeatUnfold(n: Node, ops: seq<RepeatOp>, g: nat)
    requires |ops| > 0
    ensures CodeNode(Repeat(n, ops), g) == RepeatCode(CodeNode(n, g), ZeroOk(ops), ManyOk(ops))
    ensures ZeroOk(ops) || ManyOk(ops)
  {
    assert ops[0] != Plus || ops[0] != Quest;
  }

  lemma {:induction false} SoundRepeat(n: Node, ops: seq<RepeatOp>, g: nat, code: seq<byte>, t: seq<byte>, k: int, i: int, f: nat, e: int)
    returns (j: int, count: nat, f': nat)
    requires Compilable(n) && |ops| > 0 && |code| < 32768
    requires At(code, k, CodeNode(Repeat(n, ops), g))
    requires Run(code, t, Thread(k, i), f, e)
    ensures CountOk(count, ZeroOk(ops), ManyOk(ops)) && Power(n, [], count, t, i, j)
    ensures f' <= f && Run(code, t, Thread(k + |CodeNode(Repeat(n, ops), g)|, j), f', e)
    decreases n, 2, 0
  {
    hide Step, Run, Extract, RepeatCode, At, CodeNode, Compilable, ZeroOk, ManyOk;
    var zero, many, c := ZeroOk(ops), ManyOk(ops), CodeNode(n, g);
    RepeatUnfold(n, ops, g);
    RepeatLayout(c, zero, many, code, k);
    if !zero {
      RunJump(code, t, k, i, f, e);
      j, count, f' := SoundBody(n, g, code, t, k + 3, i, f - 1, e);
    } else if many {
      j, count, f' := SoundLoop(n, g, code, t, k, i, f, e);
    } else {
      j, count, f' := SoundOnce(n, g, code, t, k, i, f, e);
    }
  }

  lemma {:induction false} SoundOnce(n: Node, g: nat, code: seq<byte>, t: seq<byte>, k: int, i: int, f: nat, e: int)
    returns (j: int, count: nat, f': nat)
    requires Compilable(n) && |code| < 32768
    requires 0 <= k && k + 3 <= |code| && code[k] == ON_FAILURE_JUMP && At(code, k + 3, CodeNode(n, g))
    requires Target(code, k) == k + 3 + |CodeNode(n, g)|
    requires Run(code, t, Thread(k, i), f, e)
    ensures count <= 1 && Power(n, [], count, t, i, j)
    ensures f' <= f && Run(code, t, Thread(Target(code, k), j), f', e)
    decreases n, 1, f
  {
    hide Step, Run, Extract;
    RunBounds(code, t, Thread(k, i), f, e);
    RunChoice(code, t, k, i, f, e);
    if Run(code, t, Thread(Target(code, k), i), f - 1, e) {
      j, count, f' := i, 0, f - 1;
    } else {
      j, f' := Sound(n, g, code, t, k + 3, i, f - 1, e);
      count := 1;
      PowerOne(n, [], t, i, j);
    }
  }

  // ---- every string of the language takes the machine through the code ----

  lemma {:induction false} Complete(n: Node, g: nat, code: seq<byte>, t: seq<byte>, k: int, i: int, j: int, e: int)
    requires Compilable(n) && At(code, k, CodeNode(n, g)) && |code| < 32768
    requires Lang(n, t, i, j) && Accepts(code, t, Thread(k + |CodeNode(n, g)|, j), e)
    ensures Accepts(code, t, Thread(k, i), e)
    decreases n, 0, 0
  {
    match n
    case Exact(lits) => CompleteLeaf(n, g, code, t, k, i, j, e);
    case AnyChar => CompleteLeaf(n, g, code, t, k, i, j, e);
    case CharSet(_, _) => CompleteLeaf(n, g, code, t, k, i, j, e);
    case Interval(_, _, _) => CompleteLeaf(n, g, code, t, k, i, j, e);
    case Group(alts) => CompleteGroup(alts, g, code, t, k, i, j, e);
    case Repeat(operand, ops) =>
      var count := CollapseSound(operand, ops, t, i, j);
      CompleteRepeat(operand, ops, g, code, t, k, i, j, count, e);
    case Skipped(_) =>
    case Stray =>
      StrayAt(code, k, g);
      AcceptsBounds(code, t, Thread(k + 1, j), e);
      AcceptsSkip(code, t, k, i, e);
  }

  lemma CompleteLeaf(n: Node, g: nat, code: seq<byte>, t: seq<byte>, k: int, i: int, j: int, e: int)
    requires n.Exact? || n.AnyChar? || n.CharSet? || n.Interval?
    requires Compilable(n) && At(code, k, CodeNode(n, g)) && |code| < 32768
    requires Lang(n, t, i, j) && Accepts(code, t, Thread(k + |CodeNode(n, g)|, j), e)
    ensures Accepts(code, t, Thread(k, i), e)
  {
    hide Step, Accepts;
    if n.Interval? && UpperOf(n) == 0 {
      var c := IntervalCount(n, t, i, j);
      NoneLayout(n, g, code, k);
      AcceptsJump(code, t, k, i, e);
    } else {
      LeafNotEmpty(n, g);
      var b := Thread(k + |CodeNode(n, g)|, j);
      StepLeaf(n, g, code, k, t, i, b);
      AcceptsStep(code, t, Thread(k, i), e);
    }
  }

  lemma {:induction false} CompleteBranch(b: seq<Node>, g: nat, code: seq<byte>, t: seq<byte>, k: int, i: int, j: int, e: int)
    requires CompilableBranch(b) && At(code, k, CodeBranch(b, g)) && |code| < 32768
    requires LangBranch(b, t, i, j) && Accepts(code, t, Thread(k + |CodeBranch(b, g)|, j), e)
    ensures Accepts(code, t, Thread(k, i), e)
    decreases b, 0, 0
  {
    if |b| > 0 {
      var init, last := b[..|b| - 1], b[|b| - 1];
      var h := g + GroupsBranch(init);
      AtSplit(code, k, CodeBranch(init, g), CodeNode(last, h));
      var m :| LangBranch(init, t, i, m) && Lang(last, t, m, j);
      Complete(last, h, code, t, k + |CodeBranch(init, g)|, m, j, e);
      CompleteBranch(init, g, code, t, k, i, m, e);
    }
  }

  lemma {:induction false} ChainComplete(alts: seq<Branch>, g: nat, code: seq<byte>, t: seq<byte>, k: int, d: int, e: int)
    requires |alts| > 1 && At(code, k, CodeAlts(alts, g)) && |code| < 32768 && 0 <= d <= |t|
    requires Accepts(code, t, Thread(k + |CodeAlts(alts, g)|, d), e)
    ensures Accepts(code, t, Thread(k + 3 + |CodeBranch(alts[0].nodes, g)|, d), e)
    decreases |alts|
  {
    hide Step, Accepts, Extract, Store, Op1, AltCode;
    AltLayout(alts, g, code, k);
    var p := k + 3 + |CodeBranch(alts[0].nodes, g)|;
    var h := g + GroupsBranch(alts[0].nodes);
    assert alts[1..][0] == alts[1];
    if |alts| > 2 {
      ChainComplete(alts[1..], h, code, t, p + 3, d, e);
    }
    AcceptsJump(code, t, p, d, e);
  }

  lemma {:induction false} CompleteAlts(alts: seq<Branch>, g: nat, code: seq<byte>, t: seq<byte>, k: int, i: int, j: int, e: int)
    requires |alts| > 0 && CompilableAlts(alts) && At(code, k, CodeAlts(alts, g)) && |code| < 32768
    requires LangAlts(alts, t, i, j) && Accepts(code, t, Thread(k + |CodeAlts(alts, g)|, j), e)
    ensures Accepts(code, t, Thread(k, i), e)
    decreases alts, 0, 0
  {
    hide Step, Accepts, Extract, Store, Op1, AltCode;
    var first, h := alts[0].nodes, g + GroupsBranch(alts[0].nodes);
    LangAltsBounds(alts, t, i, j);
    if |alts| == 1 {
      assert !LangAlts(alts[1..], t, i, j);
      CompleteBranch(first, g, code, t, k, i, j, e);
    } else {
      AltLayout(alts, g, code, k);
      var p := k + 3 + |CodeBranch(first, g)|;
      AcceptsChoice(code, t, k, i, e);
      if LangBranch(first, t, i, j) {
        ChainComplete(alts, g, code, t, k, j, e);
        CompleteBranch(first, g, code, t, k + 3, i, j, e);
      } else {
        CompleteAlts(alts[1..], h, code, t, p + 3, i, j, e);
      }
    }
  }

  lemma {:induction false} CompleteGroup(alts: seq<Branch>, g: nat, code: seq<byte>, t: seq<byte>, k: int, i: int, j: int, e: int)
    requires |alts| > 0 && CompilableAlts(alts) && At(code, k, CodeGroup(alts, g)) && |code| < 32768
    requires LangAlts(alts, t, i, j) && Accepts(code, t, Thread(k + |CodeGroup(alts, g)|, j), e)
    ensures Accepts(code, t, Thread(k, i), e)
    decreases alts, 1, 0
  {
    hide CodeAlts, CodeGroup, LangAlts, Step, Accepts, At;
    LangAltsBounds(alts, t, i, j);
    GroupLayout(alts, g, code, k);
    var n := GroupStart(g, k);
    var s := n + |CodeAlts(alts, g + 1)| + if |alts| > 1 then 1 else 0;
    if g + 1 <= MAX_REGNUM {
      AcceptsSkip(code, t, s, j, e);
    }
    if |alts| > 1 {
      AcceptsSkip(code, t, s - 1, j, e);
    }
    CompleteAlts(alts, g + 1, code, t, n, i, j, e);
    if g + 1 <= MAX_REGNUM {
      AcceptsSkip(code, t, k, i, e);
    }
  }

  /** From the start of the body (`count > 0`) and from the `on_failure_jump` of a loop. */
  lemma {:induction false} CompleteLoop(n: Node, g: nat, code: seq<byte>, t: seq<byte>, q: int, i: int, j: int, count: nat, e: int)
    requires Compilable(n) && |code| < 32768
    requires 0 <= q && q + 3 <= |code| && code[q] == ON_FAILURE_JUMP && At(code, q + 3, CodeNode(n, g))
    requires var m := q + 3 + |CodeNode(n, g)|;
             m + 3 <= |code| && code[m] == MAYBE_POP_JUMP && Target(code, m) == q && Target(code, q) == m + 3
    requires Power(n, [], count, t, i, j) && Accepts(code, t, Thread(Target(code, q), j), e)
    ensures Accepts(code, t, Thread(q, i), e)
    ensures count > 0 ==> Accepts(code, t, Thread(q + 3, i), e)
    decreases n, 1, count
  {
    hide Step, Accepts, Extract;
    PowerBounds(n, [], count, t, i, j);
    AcceptsChoice(code, t, q, i, e);
    if count > 0 {
      var m := q + 3 + |CodeNode(n, g)|;
      var x := PowerFirst(n, [], count, t, i, j);
      CompleteLoop(n, g, code, t, q, x, j, count - 1, e);
      AcceptsJump(code, t, m, x, e);
      Complete(n, g, code, t, q + 3, i, x, e);
    }
  }

  lemma {:induction false} CompleteRepeat(n: Node, ops: seq<RepeatOp>, g: nat, code: seq<byte>, t: seq<byte>, k: int, i: int, j: int, count: nat, e: int)
    requires Compilable(n) && |ops| > 0 && |code| < 32768
    requires At(code, k, CodeNode(Repeat(n, ops), g))
    requires CountOk(count, ZeroOk(ops), ManyOk(ops)) && Power(n, [], count, t, i, j)
    requires Accepts(code, t, Thread(k + |CodeNode(Repeat(n, ops), g)|, j), e)
    ensures Accepts(code, t, Thread(k, i), e)
    decreases n, 2, 0
  {
    hide Step, Accepts, Extract, RepeatCode, At, CodeNode, Compilable, ZeroOk, ManyOk;
    var zero, many, c := ZeroOk(ops), ManyOk(ops), CodeNode(n, g);
    RepeatUnfold(n, ops, g);
    RepeatLayout(c, zero, many, code, k);
    PowerBounds(n, [], count, t, i, j);
    if many {
      CompleteLoop(n, g, code, t, k + if zero then 0 else 3, i, j, count, e);
      if !zero {
        AcceptsJump(code, t, k, i, e);
      }
    } else {
      AcceptsChoice(code, t, k, i, e);
      if count == 1 {
        PowerOne(n, [], t, i, j);
        Complete(n, g, code, t, k + 3, i, j, e);
      }
    }
  }

  // ---- whole patterns ----

  /** Compiler correctness: the machine goes from the start of the compiled pattern at `i` to its end
      with the cursor at `e` exactly when `t[i..e]` is one of the pattern's strings. */
  lemma CodeAccepts(alts: seq<Branch>, t: seq<byte>, i: int, e: int)
    requires |alts| > 0 && CompilableAlts(alts) && |CodeAlts(alts, 0)| < 32768
    ensures Accepts(CodeAlts(alts, 0), t, Thread(0, i), e) <==> LangAlts(alts, t, i, e)
  {
    hide *;
    AcceptsLang(alts, t, i, e);
    LangAccepts(alts, t, i, e);
  }

  lemma WholeCode(code: seq<byte>)
    ensures At(code, 0, code)
  {
    assert code[0..|code|] == code;
  }

  lemma AcceptsLang(alts: seq<Branch>, t: seq<byte>, i: int, e: int)
    requires |alts| > 0 && CompilableAlts(alts) && |CodeAlts(alts, 0)| < 32768
    ensures Accepts(CodeAlts(alts, 0), t, Thread(0, i), e) ==> LangAlts(alts, t, i, e)
  {
    hide CodeAlts, LangAlts, Step, Run, CompilableAlts, At;
    var code := CodeAlts(alts, 0);
    WholeCode(code);
    if Accepts(code, t, Thread(0, i), e) {
      var f: nat :| Run(code, t, Thread(0, i), f, e);
      var j, f' := SoundAlts(alts, 0, code, t, 0, i, f, e);
      assert Accepts(code, t, Thread(|code|, j), e);
      AcceptsAtEnd(code, t, j, e);
    }
  }

  lemma LangAccepts(alts: seq<Branch>, t: seq<byte>, i: int, e: int)
    requires |alts| > 0 && CompilableAlts(alts) && |CodeAlts(alts, 0)| < 32768
    ensures LangAlts(alts, t, i, e) ==> Accepts(CodeAlts(alts, 0), t, Thread(0, i), e)
  {
    hide CodeAlts, LangAlts, Step, Run, Accepts, CompilableAlts, At;
    var code := CodeAlts(alts, 0);
    WholeCode(code);
    if LangAlts(alts, t, i, e) {
      LangAltsBounds(alts, t, i, e);
      AcceptsAtEnd(code, t, e, e);
      CompleteAlts(alts, 0, code, t, 0, i, e, e);
    }
  }
}
