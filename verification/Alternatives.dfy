/** The leaves of several bare alternatives: those of one alternative after the other. */
module Alternatives {
  import opened Bytes
  import opened Opcodes
  import opened Regex
  import opened Code
  import opened Machine
  import opened CompilerCorrect
  import opened WellFormed
  import opened Traces
  import opened Paths
  import opened Longest

  /** The leaves end where the alternatives match, and leave out a match only for a longer one. */
  ghost predicate StandsFor(tr: seq<Leaf>, alts: seq<Branch>, t: seq<byte>, d: int) {
    && (forall e :: Reaches(tr, e) ==> LangAlts(alts, t, d, e))
    && (forall e :: LangAlts(alts, t, d, e) ==> Covered(tr, e))
  }

  ghost predicate Covered(tr: seq<Leaf>, e: int) {
    exists e' :: e <= e' && Reaches(tr, e')
  }

  /** The code of all alternatives lies at `k`, at the end of the program. */
  ghost predicate AltsAt(alts: seq<Branch>, g: nat, code: seq<byte>, k: int) {
    && |alts| > 0 && CompilableAlts(alts) && At(code, k, CodeAlts(alts, g)) && k + |CodeAlts(alts, g)| == |code| < 32768
  }

  // ---- one alternative that is not the last ----

  lemma NoLoopHere(code: seq<byte>, k: int, p: int)
    requires 0 <= k && k + 3 <= p && p + 3 <= |code| && Target(code, k) == p + 3 && code[p] == JUMP_PAST_ALT
    ensures !IsLoop(code, k)
  {
    hide Extract, OneChar;
  }

  lemma DecodeChoice(code: seq<byte>, k: int)
    requires Fits(code, k) && k + 3 <= |code| && code[k] == ON_FAILURE_JUMP && !IsLoop(code, k)
    ensures Decode(code, k) == Choice(k + 3, Target(code, k))
  {
    hide IsLoop;
  }

  /** The choice in front of an alternative that is not the last. */
  lemma FirstChoice(alts: seq<Branch>, g: nat, code: seq<byte>, k: int, x: set<int>, t: seq<byte>, d: int)
    requires AltsAt(alts, g, code, k) && |alts| > 1 && Standing(code, x, t, k, d)
    ensures var p := k + 3 + |CodeBranch(alts[0].nodes, g)|;
            && Chooses(code, x, t, k, d, k + 3, p + 3) && AltsAt(alts[1..], g + GroupsBranch(alts[0].nodes), code, p + 3)
  {
    hide CodeAlts, CodeBranch, GroupsBranch, Extract, IsLoop, Leaves, Decode, Chooses, CompilableBranch, Closed;
    AltLayout(alts, g, code, k);
    var p := k + 3 + |CodeBranch(alts[0].nodes, g)|;
    NoLoopHere(code, k, p);
    DecodeChoice(code, k);
    LeavesChoice(code, x, t, k, d, k + 3, p + 3);
  }

  /** The leaves of the first alternative stand for its strings. */
  lemma FirstStands(alts: seq<Branch>, g: nat, code: seq<byte>, k: int, x: set<int>, t: seq<byte>, d: int)
    requires AltsAt(alts, g, code, k) && |alts| > 1 && Standing(code, x, t, k + 3, d) && TestsRight(code, x)
    ensures StandsFor(Leaves(code, x, t, k + 3, d), [alts[0]], t, d)
  {
    hide CodeAlts, CodeBranch, GroupsBranch, Closed, Leaves, LangBranch, Accepts, Reaches, CompilableAlts, At, TestsRight;
    var tr := Leaves(code, x, t, k + 3, d);
    OneAlternativeLang(alts[0], t, d);
    forall e | Reaches(tr, e)
      ensures LangBranch(alts[0].nodes, t, d, e)
    {
      LeafFirst(alts, g, code, k, x, t, d, e);
    }
    forall e | LangBranch(alts[0].nodes, t, d, e)
      ensures Covered(tr, e)
    {
      var e' := FirstLeaf(alts, g, code, k, x, t, d, e);
    }
  }

  lemma OneAlternativeLang(b: Branch, t: seq<byte>, d: int)
    ensures forall e :: LangAlts([b], t, d, e) <==> LangBranch(b.nodes, t, d, e)
  {
    hide LangBranch;
    assert [b][1..] == [];
  }

  lemma LeafFirst(alts: seq<Branch>, g: nat, code: seq<byte>, k: int, x: set<int>, t: seq<byte>, d: int, e: int)
    requires AltsAt(alts, g, code, k) && |alts| > 1 && Standing(code, x, t, k + 3, d)
    requires Reaches(Leaves(code, x, t, k + 3, d), e)
    ensures LangBranch(alts[0].nodes, t, d, e)
  {
    hide CodeAlts, CodeBranch, GroupsBranch, Closed, LangBranch, Reaches, Extract, Run, Step, CompilableBranch, Trace;
    AltLayout(alts, g, code, k);
    TraceSound(code, x, t, k + 3, d, e);
    var f: nat :| Run(code, t, Thread(k + 3, d), f, e);
    var j, f' := SoundBranch(alts[0].nodes, g, code, t, k + 3, d, f, e);
    ChainSound(alts, g, code, t, k, j, f', e);
    assert Accepts(code, t, Thread(|code|, j), e);
    AcceptsAtEnd(code, t, j, e);
  }

  lemma FirstLeaf(alts: seq<Branch>, g: nat, code: seq<byte>, k: int, x: set<int>, t: seq<byte>, d: int, e: int) returns (e': int)
    requires AltsAt(alts, g, code, k) && |alts| > 1 && Standing(code, x, t, k + 3, d) && TestsRight(code, x)
    requires LangBranch(alts[0].nodes, t, d, e)
    ensures e <= e' && Reaches(Leaves(code, x, t, k + 3, d), e')
  {
    hide CodeAlts, CodeBranch, GroupsBranch, Closed, LangBranch, Reaches, Extract, Accepts, CompilableBranch, Trace, TestsRight;
    AltLayout(alts, g, code, k);
    LangBranchBounds(alts[0].nodes, t, d, e);
    AcceptsAtEnd(code, t, e, e);
    ChainComplete(alts, g, code, t, k, e, e);
    CompleteBranch(alts[0].nodes, g, code, t, k + 3, d, e, e);
    e' := TraceComplete(code, x, t, k + 3, d, e);
  }

  // ---- all of them ----

  lemma StandsAppend(a: seq<Leaf>, b: seq<Leaf>, first: Branch, rest: seq<Branch>, t: seq<byte>, d: int)
    requires StandsFor(a, [first], t, d) && StandsFor(b, rest, t, d)
    ensures StandsFor(a + b, [first] + rest, t, d)
  {
    hide Reaches, LangBranch;
    OneAlternativeLang(first, t, d);
    assert ([first] + rest)[1..] == rest;
    var all := [first] + rest;
    forall e
      ensures Reaches(a + b, e) <==> Reaches(a, e) || Reaches(b, e)
    {
      ReachesAppend(a, b, e);
    }
    forall e
      ensures LangAlts(all, t, d, e) <==> LangAlts([first], t, d, e) || LangAlts(rest, t, d, e)
    {
      assert all[0] == first;
    }
    hide LangAlts;
    forall e | LangAlts(all, t, d, e)
      ensures Covered(a + b, e)
    {
      if LangAlts([first], t, d, e) {
        assert Covered(a, e);
      } else {
        assert Covered(b, e);
      }
    }
  }

  lemma StandsNone(t: seq<byte>, d: int)
    ensures StandsFor([], [], t, d)
  {}

  /** The last alternative and what comes before it: its place in the program, and the leaves of the others. */
  lemma {:induction false} EarlyLeaves(alts: seq<Branch>, b: Branch, g: nat, code: seq<byte>, k: int, x: set<int>, t: seq<byte>, d: int)
    returns (early: seq<Leaf>, h: nat, s: int)
    requires AltsAt(alts + [b], g, code, k) && Standing(code, x, t, k, d) && TestsRight(code, x)
    ensures At(code, s, CodeBranch(b.nodes, h)) && s + |CodeBranch(b.nodes, h)| == |code| && Standing(code, x, t, s, d)
    ensures Leaves(code, x, t, k, d) == early + Leaves(code, x, t, s, d) && StandsFor(early, alts, t, d)
    decreases |alts|
  {
    hide CodeAlts, CodeBranch, GroupsBranch, Standing, Leaves, StandsFor, AltsAt, TestsRight;
    var all := alts + [b];
    if |alts| == 0 {
      early, h, s := [], g, k;
      assert all == [b] && alts == [];
      LastAlternative(b, g, code, k);
      StandsNone(t, d);
    } else {
      FirstChoice(all, g, code, k, x, t, d);
      FirstStands(all, g, code, k, x, t, d);
      assert all[0] == alts[0] && all[1..] == alts[1..] + [b] && [alts[0]] + alts[1..] == alts;
      var p := k + 3 + |CodeBranch(alts[0].nodes, g)|;
      var rest;
      rest, h, s := EarlyLeaves(alts[1..], b, g + GroupsBranch(alts[0].nodes), code, p + 3, x, t, d);
      early := Leaves(code, x, t, k + 3, d) + rest;
      StandsAppend(Leaves(code, x, t, k + 3, d), rest, alts[0], alts[1..], t, d);
    }
  }

  lemma LastAlternative(b: Branch, g: nat, code: seq<byte>, k: int)
    requires AltsAt([b], g, code, k)
    ensures At(code, k, CodeBranch(b.nodes, g)) && k + |CodeBranch(b.nodes, g)| == |code|
  {
    hide CodeBranch;
  }

  // ---- a last alternative without choices ----

  /** Characters, `.` and bracket expressions that are not repeated. */
  predicate Straight(n: Node) {
    n.Exact? || n.AnyChar? || n.CharSet?
  }

  predicate StraightBranch(b: seq<Node>) {
    forall i :: 0 <= i < |b| ==> Straight(b[i])
  }

  function Width(n: Node): nat {
    if n.Exact? then |n.lits| else 1
  }

  function BranchWidth(b: seq<Node>): nat {
    if |b| == 0 then 0 else BranchWidth(b[..|b| - 1]) + Width(b[|b| - 1])
  }

  lemma StraightLang(n: Node, t: seq<byte>, i: int, j: int)
    requires Straight(n) && Lang(n, t, i, j)
    ensures j == i + Width(n) && 0 <= i <= j <= |t|
  {}

  lemma {:induction false} StraightBranchLang(b: seq<Node>, t: seq<byte>, i: int, j: int)
    requires StraightBranch(b) && LangBranch(b, t, i, j)
    ensures j == i + BranchWidth(b) && 0 <= i <= j <= |t|
  {
    hide Lang;
    if |b| > 0 {
      var init, last := b[..|b| - 1], b[|b| - 1];
      var m :| LangBranch(init, t, i, m) && Lang(last, t, m, j);
      StraightBranchLang(init, t, i, m);
      StraightLang(last, t, m, j);
    }
  }

  /** One command of such an alternative goes on behind it or gives up. */
  lemma StraightNode(n: Node, g: nat, code: seq<byte>, k: int, x: set<int>, t: seq<byte>, d: int)
    requires Straight(n) && Compilable(n) && At(code, k, CodeNode(n, g)) && Standing(code, x, t, k, d)
    ensures GoesOn(code, x, t, k, d, k + |CodeNode(n, g)|, Width(n), Lang(n, t, d, d + Width(n)))
  {
    hide GoesOn, CodeNode, Lang, At, Standing, Compilable, Width;
    StraightIs(n);
    if n.Exact? {
      WordNode(n.lits, g, code, k, x, t, d);
    } else {
      CharGoesOn(n, g, code, k, x, t, d);
    }
  }

  lemma StraightIs(n: Node)
    requires Straight(n) && Compilable(n)
    ensures if n.Exact? then 1 <= |n.lits| <= 255 && Width(n) == |n.lits| && n == Exact(n.lits) else (n.AnyChar? || n.CharSet?) && Width(n) == 1
  {}

  lemma CharGoesOn(n: Node, g: nat, code: seq<byte>, k: int, x: set<int>, t: seq<byte>, d: int)
    requires (n.AnyChar? || n.CharSet?) && At(code, k, CodeNode(n, g)) && Standing(code, x, t, k, d)
    ensures GoesOn(code, x, t, k, d, k + |CodeNode(n, g)|, 1, Lang(n, t, d, d + 1))
  {
    hide GoesOn, CodeNode, Lang, TakesAt, Closed, At, Decode, Fits, OneChar;
    CharMeaning(n, g, code, k, t, d, d + 1);
    SetOp(n, g, code, k);
    CharFits(code, k);
    DecodeTake(code, k);
    LeavesTake(code, x, t, k, d, k + OpLen(code, k));
  }

  lemma CharFits(code: seq<byte>, k: int)
    requires OneChar(code, k)
    ensures Fits(code, k)
  {}

  lemma SetOp(n: Node, g: nat, code: seq<byte>, k: int)
    requires (n.AnyChar? || n.CharSet?) && At(code, k, CodeNode(n, g))
    ensures 0 <= k < |code| && (code[k] == ANYCHAR || code[k] == CHARSET || code[k] == CHARSET_NOT)
  {
    hide Trim, Bitmap;
    assert code[k] == CodeNode(n, g)[0];
  }

  lemma DecodeTake(code: seq<byte>, k: int)
    requires Fits(code, k) && (code[k] == ANYCHAR || code[k] == CHARSET || code[k] == CHARSET_NOT)
    ensures Decode(code, k) == Take(k + OpLen(code, k))
  {
    hide IsLoop, IsInterval;
  }

  lemma WordNode(u: seq<Literal>, g: nat, code: seq<byte>, k: int, x: set<int>, t: seq<byte>, d: int)
    requires 1 <= |u| <= 255 && At(code, k, CodeNode(Exact(u), g)) && Standing(code, x, t, k, d)
    ensures GoesOn(code, x, t, k, d, k + |CodeNode(Exact(u), g)|, |u|, Lang(Exact(u), t, d, d + |u|))
  {
    hide GoesOn, Closed, Chars, Decode, WordAt;
    WordBytes(code, k, g, u);
    DecodeWord(code, k);
    LeavesMatch(code, x, t, k, d, |u|, k + 2 + |u|);
    WordIs(code, k, u, t, d);
  }

  lemma WordBytes(code: seq<byte>, k: int, g: nat, u: seq<Literal>)
    requires 1 <= |u| <= 255 && At(code, k, CodeNode(Exact(u), g))
    ensures 0 <= k && k + 2 + |u| <= |code| && code[k] == EXACTN && code[k + 1] == |u| && code[k + 2..k + 2 + |u|] == Chars(u)
    ensures |CodeNode(Exact(u), g)| == 2 + |u|
  {
    hide Chars;
    var c := CodeNode(Exact(u), g);
    var s := code[k..k + |c|];
    assert code[k] == s[0] && code[k + 1] == s[1];
    assert code[k + 2..k + 2 + |u|] == s[2..];
  }

  lemma DecodeWord(code: seq<byte>, k: int)
    requires Fits(code, k) && code[k] == EXACTN
    ensures Decode(code, k) == Match(code[k + 1], k + 2 + code[k + 1] as int)
  {}

  lemma WordIs(code: seq<byte>, k: int, u: seq<Literal>, t: seq<byte>, d: int)
    requires 0 <= k && k + 2 + |u| <= |code| && code[k + 2..k + 2 + |u|] == Chars(u) && 0 <= d <= |t|
    ensures WordAt(code, k, t, d, |u|) <==> Lang(Exact(u), t, d, d + |u|)
  {
    if d + |u| <= |t| {
      var s := t[d..d + |u|];
      assert forall i :: 0 <= i < |u| ==> t[d + i] == s[i];
      assert Lang(Exact(u), t, d, d + |u|) <==> s == Chars(u);
    }
  }

  /** The leaves of such an alternative: those behind it where it matches. */
  lemma {:induction false} StraightLeaves(b: seq<Node>, g: nat, code: seq<byte>, k: int, x: set<int>, t: seq<byte>, d: int)
    requires StraightBranch(b) && CompilableBranch(b) && At(code, k, CodeBranch(b, g)) && Standing(code, x, t, k, d)
    ensures GoesOn(code, x, t, k, d, k + |CodeBranch(b, g)|, BranchWidth(b), LangBranch(b, t, d, d + BranchWidth(b)))
  {
    hide CodeBranch, CodeNode, GroupsBranch, Compilable, At, Lang, Closed, Leaves;
    if |b| == 0 {
      EmptyBlock(b, g, code, k);
      assert LangBranch(b, t, d, d);
    } else {
      var init, last := b[..|b| - 1], b[|b| - 1];
      var h, mid := g + GroupsBranch(init), k + |CodeBranch(init, g)|;
      BranchUnfold(b, g);
      AtSplit(code, k, CodeBranch(init, g), CodeNode(last, h));
      StraightLeaves(init, g, code, k, x, t, d);
      StraightSnoc(b, t, d);
      if LangBranch(init, t, d, d + BranchWidth(init)) {
        StraightNode(last, h, code, mid, x, t, d + BranchWidth(init));
      }
    }
  }

  lemma StraightSnoc(b: seq<Node>, t: seq<byte>, d: int)
    requires |b| > 0 && StraightBranch(b)
    ensures var init, last := b[..|b| - 1], b[|b| - 1];
            var m := d + BranchWidth(init);
            LangBranch(b, t, d, d + BranchWidth(b)) <==> LangBranch(init, t, d, m) && Lang(last, t, m, m + Width(last))
  {
    hide Lang;
    var init, last := b[..|b| - 1], b[|b| - 1];
    if m :| LangBranch(init, t, d, m) && Lang(last, t, m, d + BranchWidth(b)) {
      StraightBranchLang(init, t, d, m);
    }
  }

  /** At the end of the program: one leaf. */
  lemma StraightLeaf(b: seq<Node>, g: nat, code: seq<byte>, k: int, x: set<int>, t: seq<byte>, d: int)
    requires StraightBranch(b) && CompilableBranch(b) && At(code, k, CodeBranch(b, g)) && Standing(code, x, t, k, d)
    requires k + |CodeBranch(b, g)| == |code|
    ensures var e := d + BranchWidth(b);
            Leaves(code, x, t, k, d) == [if LangBranch(b, t, d, e) then End(e) else Dead]
  {
    hide CodeBranch, Compilable, At, LangBranch, Closed, Leaves;
    StraightLeaves(b, g, code, k, x, t, d);
    if LangBranch(b, t, d, d + BranchWidth(b)) {
      LeavesEnd(code, x, t, d + BranchWidth(b));
    }
  }

  // ---- the result ----

  /** Where the last leaf would be the longest match but comes after another one. */
  ghost predicate Overtakes(alts: seq<Branch>, t: seq<byte>, d: int, e: int) {
    e < |t| && (exists e' :: LangAlts(alts, t, d, e')) && forall e' :: LangAlts(alts, t, d, e') ==> e' < e
  }

  /** In terms of the leaves: the best one before the last belongs to the earlier alternatives. */
  lemma BestEarly(early: seq<Leaf>, alts: seq<Branch>, t: seq<byte>, d: int, e: int)
    requires StandsFor(early, alts, t, d) && 0 <= d
    ensures e < |t| && 0 <= Best(early) < e <==> Overtakes(alts, t, d, e)
  {
    hide Reaches, LangAlts;
    forall k | 0 <= k < |early| && early[k].End?
      ensures early[k].e >= 0
    {
      LeafReached(early, k);
      LangAltsBounds(alts, t, d, early[k].e);
    }
    BestIs(early);
    forall e' | LangAlts(alts, t, d, e')
      ensures 0 <= e' <= Best(early)
    {
      assert Covered(early, e');
      var e'' :| e' <= e'' && Reaches(early, e'');
      ReachedBest(early, e'');
      LangAltsBounds(alts, t, d, e');
    }
    hide Best;
    if Best(early) >= 0 {
      assert LangAlts(alts, t, d, Best(early));
    }
  }

  lemma ReachedBest(tr: seq<Leaf>, e: int)
    requires Reaches(tr, e) && forall k :: 0 <= k < |tr| && tr[k].End? ==> tr[k].e <= Best(tr)
    ensures e <= Best(tr)
  {}

  /** With a last alternative without choices the longest match is missed exactly where that alternative is longer than all
      matches before it. */
  lemma StraightLast(alts: seq<Branch>, b: Branch, code: seq<byte>, x: set<int>, t: seq<byte>, d: int)
    requires AltsAt(alts + [b], 0, code, 0) && StraightBranch(b.nodes) && CompilableBranch(b.nodes)
    requires WfProgram(code, x) && Closed(code, x) && TestsRight(code, x) && 0 <= d <= |t| && 0 in x + {|code|}
    ensures (forall e :: Accepts(code, t, Thread(0, d), e) ==> e <= Outcome(Trace(code, x, t, 0, d), |t|)) <==>
            !exists e :: LangBranch(b.nodes, t, d, e) && Overtakes(alts, t, d, e)
  {
    hide AltsAt, CompilableBranch, WfProgram, Closed, TestsRight, Trace, Outcome, Accepts, LangBranch, Best, Overtakes, CodeBranch, StandsFor,
      StraightBranch;
    var early, h, s := EarlyLeaves(alts, b, 0, code, 0, x, t, d);
    StraightLeaf(b.nodes, h, code, s, x, t, d);
    var e := d + BranchWidth(b.nodes);
    BestEarly(early, alts, t, d, e);
    var tr := Trace(code, x, t, 0, d);
    assert tr == early + [tr[|tr| - 1]] && tr[..|tr| - 1] == early;
    LongestIff(code, x, t, d);
    forall e' | LangBranch(b.nodes, t, d, e')
      ensures e' == e
    {
      StraightBranchLang(b.nodes, t, d, e');
    }
  }

  /** For any last alternative the longest match is missed only where it is longer than all matches before it. */
  lemma AnyLast(alts: seq<Branch>, b: Branch, code: seq<byte>, x: set<int>, t: seq<byte>, d: int)
    requires AltsAt(alts + [b], 0, code, 0) && CompilableBranch(b.nodes) && SimpleLoopsBranch(b.nodes)
    requires WfProgram(code, x) && Closed(code, x) && TestsRight(code, x) && 0 <= d <= |t| && 0 in x + {|code|}
    requires !exists e :: LangBranch(b.nodes, t, d, e) && Overtakes(alts, t, d, e)
    ensures forall e :: Accepts(code, t, Thread(0, d), e) ==> e <= Outcome(Trace(code, x, t, 0, d), |t|)
  {
    hide AltsAt, CompilableBranch, SimpleLoopsBranch, WfProgram, Closed, TestsRight, Trace, Outcome, Accepts, LangBranch, Best, Overtakes,
      CodeBranch, StandsFor, Behind, Lazy, At, LeastFrom;
    var early, h, s := EarlyLeaves(alts, b, 0, code, 0, x, t, d);
    var tr, tail := Trace(code, x, t, 0, d), Leaves(code, x, t, s, d);
    var last := tr[|tr| - 1];
    AltsFit(alts + [b], 0, code, 0);
    LongestIff(code, x, t, d);
    if last.End? && last.e < |t| && 0 <= Best(tr[..|tr| - 1]) < last.e {
      TailLang(b, h, code, s, x, t, d);
      EndBehind(code, t);
      var z := BranchBehind(b.nodes, h, code, s, {}, t);
      BehindLeast(code, x, z, t, s, d);
      BestSplit(early, tail, tr, alts, t, d);
      BestEarly(early, alts, t, d, last.e);
    }
  }

  lemma AltsFit(alts: seq<Branch>, g: nat, code: seq<byte>, k: int)
    requires AltsAt(alts, g, code, k)
    ensures |code| < 32768
  {}

  lemma TailLang(b: Branch, h: nat, code: seq<byte>, s: int, x: set<int>, t: seq<byte>, d: int)
    requires CompilableBranch(b.nodes) && At(code, s, CodeBranch(b.nodes, h)) && s + |CodeBranch(b.nodes, h)| == |code| < 32768
    requires Standing(code, x, t, s, d)
    ensures forall e :: Reaches(Leaves(code, x, t, s, d), e) ==> LangBranch(b.nodes, t, d, e)
  {
    hide CodeBranch, Closed, LangBranch, Reaches, Run, Step, CompilableBranch, Trace;
    forall e | Reaches(Leaves(code, x, t, s, d), e)
      ensures LangBranch(b.nodes, t, d, e)
    {
      TraceSound(code, x, t, s, d, e);
      var f: nat :| Run(code, t, Thread(s, d), f, e);
      var j, f' := SoundBranch(b.nodes, h, code, t, s, d, f, e);
      assert Accepts(code, t, Thread(|code|, j), e);
      AcceptsAtEnd(code, t, j, e);
    }
  }

  lemma BehindLeast(code: seq<byte>, x: set<int>, z: set<int>, t: seq<byte>, s: int, d: int)
    requires Behind(code, z, t, s) && Standing(code, x, t, s, d)
    ensures Least(Leaves(code, x, t, s, d), Leaves(code, x, t, s, d))
  {
    hide Closed, Lazy, Least, Leaves;
    LazySame(code, x, z, t, s);
    LazyAt(code, x, t, s, d, d);
  }

  /** When the last leaf is the least of its alternative, only earlier alternatives have a better one below it. */
  lemma BestSplit(early: seq<Leaf>, tail: seq<Leaf>, tr: seq<Leaf>, alts: seq<Branch>, t: seq<byte>, d: int)
    requires |tail| > 0 && tr == early + tail && Least(tail, tail) && StandsFor(early, alts, t, d) && 0 <= d
    requires Last(tr).End? && 0 <= Best(tr[..|tr| - 1]) < Last(tr).e && forall e :: Reaches(tail, e) ==> 0 <= e
    ensures Best(early) == Best(tr[..|tr| - 1]) && Reaches(tail, Last(tr).e)
  {
    hide Best, Reaches, LangAlts;
    var init, e := tr[..|tr| - 1], Last(tr).e;
    var rest := tail[..|tail| - 1];
    assert init == early + rest && Last(tail) == Last(tr);
    LeafReached(tail, |tail| - 1);
    forall k | 0 <= k < |early| && early[k].End?
      ensures early[k].e >= 0
    {
      LeafReached(early, k);
      LangAltsBounds(alts, t, d, early[k].e);
    }
    forall k | 0 <= k < |rest| && rest[k].End?
      ensures rest[k].e >= e
    {
      assert rest[k] == tail[k];
      LeafReached(tail, k);
    }
    BestAppend(early, rest, e);
  }

  lemma {:induction false} BestAppend(a: seq<Leaf>, b: seq<Leaf>, e: int)
    requires (forall k :: 0 <= k < |b| && b[k].End? ==> b[k].e >= e) && Best(a + b) < e
    ensures Best(a) == Best(a + b)
    decreases |b|
  {
    if |b| == 0 {
      assert a + b == a;
    } else {
      var c := b[..|b| - 1];
      assert (a + b)[..|a + b| - 1] == a + c && (a + b)[|a + b| - 1] == b[|b| - 1];
      BestAppend(a, c, e);
    }
  }
}
