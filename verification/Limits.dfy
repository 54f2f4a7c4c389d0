/** Where the engine departs from what one would expect of it. */
module Limits {
  import opened Bytes
  import opened Opcodes
  import opened Regex
  import opened Code
  import opened Machine
  import opened CompilerCorrect
  import opened WellFormed
  import opened Traces
  import opened Paths
  import opened Longest
  import opened PatternBuffers
  import opened Search
  import opened Reading
  import opened Layout
  import opened Patterns
  import opened Alternatives

  // ---- a repeated bracket expression in front of characters ----

  /** `[items]*` followed by the characters `lits`. */
  function StarThen(items: seq<SetItem>, lits: seq<Literal>): seq<Branch> {
    [Branch([Repeat(CharSet(false, items), [Star]), Exact(lits)])]
  }

  lemma StarThenCode(items: seq<SetItem>, lits: seq<Literal>)
    requires 1 <= |lits| <= 255
    ensures var bm := Trim(Bitmap(items));
            |bm| <= 32 && CodeAlts(StarThen(items, lits), 0) ==
            RepeatCode([CHARSET, |bm| as byte] + bm, true, true) + ([EXACTN, |lits| as byte] + Chars(lits))
  {
    hide *;
    var set', ex := CharSet(false, items), Exact(lits);
    var r := Repeat(set', [Star]);
    var b := [r, ex];
    SetCode(items);
    ExactlyCode(lits);
    StarOps();
    RepeatUnfold(set', [Star], 0);
    assert b[..1] == [r] && b[1] == ex && [r][..0] == [];
    BranchUnfold(b, 0);
    BranchUnfold([r], 0);
    NothingCode(r);
    ExactlyAnywhere(lits, GroupsBranch([r]));
    CodeAltsOne(Branch(b), 0);
    StarThenIs(items, lits);
  }

  lemma StarThenIs(items: seq<SetItem>, lits: seq<Literal>)
    ensures StarThen(items, lits) == [Branch([Repeat(CharSet(false, items), [Star]), Exact(lits)])]
  {}

  lemma StarOps()
    ensures ZeroOk([Star]) && ManyOk([Star])
  {
    assert [Star][0] == Star;
  }

  lemma SetCode(items: seq<SetItem>)
    ensures var bm := Trim(Bitmap(items));
            |bm| <= 32 && CodeNode(CharSet(false, items), 0) == [CHARSET, |bm| as byte] + bm
  {
    hide Trim, Bitmap;
    BitmapMeaning(items, 0);
  }

  lemma ExactlyCode(lits: seq<Literal>)
    requires 1 <= |lits| <= 255
    ensures CodeNode(Exact(lits), 0) == [EXACTN, |lits| as byte] + Chars(lits)
  {
    hide Chars;
  }

  lemma ExactlyAnywhere(lits: seq<Literal>, g: nat)
    ensures CodeNode(Exact(lits), g) == CodeNode(Exact(lits), 0)
  {
    hide Chars;
  }

  lemma NothingCode(r: Node)
    ensures CodeBranch([], 0) == [] && GroupsBranch([]) == 0 && |[r]| == 1 && [r][0] == r
    ensures [] + CodeNode(r, 0) == CodeNode(r, 0)
  {
    hide CodeNode;
  }

  lemma StarThenFragment(items: seq<SetItem>, lits: seq<Literal>)
    requires 1 <= |lits| <= 255
    ensures var alts := StarThen(items, lits);
            |alts| > 0 && CompilableAlts(alts) && SimpleLoopsAlts(alts) && InFragment(alts)
  {
    hide CodeAlts, Trim, Bitmap, Chars, ManyOk;
    var r, ex := Repeat(CharSet(false, items), [Star]), Exact(lits);
    StarThenCode(items, lits);
    assert [r, ex][..1] == [r] && [r][..0] == [];
    assert CompilableBranch([]) && SimpleLoopsBranch([]);
    assert Compilable(r) && SimpleLoops(r);
    assert CompilableBranch([r]) && SimpleLoopsBranch([r]);
    assert CompilableBranch([r, ex]) && SimpleLoopsBranch([r, ex]);
    assert StarThen(items, lits)[0].nodes == [r, ex] && StarThen(items, lits)[1..] == [];
    assert CompilableAlts([]) && SimpleLoopsAlts([]);
    assert CompilableAlts(StarThen(items, lits)) && SimpleLoopsAlts(StarThen(items, lits));
    assert |CodeAlts(StarThen(items, lits), 0)| < 32768;
  }

  /** Offsets and bytes of that program: the loop at 0, the `exactn` behind it. */
  lemma StarThenShape(items: seq<SetItem>, lits: seq<Literal>) returns (exit: int)
    requires 1 <= |lits| <= 255
    ensures var code, bm := CodeAlts(StarThen(items, lits), 0), Trim(Bitmap(items));
            && IsLoop(code, 0) && LoopEnd(code, 0) + 3 == exit && exit + 2 + |lits| == |code|
            && code[3] == CHARSET && code[4] == |bm| && code[exit] == EXACTN && code[exit + 1] == |lits|
            && code[exit + 2] == lits[0].c
            && At(code, 3, [CHARSET, |bm| as byte] + bm)
  {
    hide CodeAlts, Trim, Bitmap, RepeatCode, Extract, HasBit, OneChar, OpLen, IsLoop;
    StarThenCode(items, lits);
    var bm := Trim(Bitmap(items));
    var set' := [CHARSET, |bm| as byte] + bm;
    var loop, rest := RepeatCode(set', true, true), [EXACTN, |lits| as byte] + Chars(lits);
    var code := CodeAlts(StarThen(items, lits), 0);
    LoopLength(set');
    assert At(code, 0, loop);
    RepeatLayout(set', true, true, code, 0);
    exit := |loop|;
    assert code[exit] == rest[0] && code[exit + 1] == rest[1] && code[exit + 2] == rest[2] == lits[0].c;
    SetBytes(code, 3, CHARSET, bm);
    LoopIs(code, 0, exit);
  }

  lemma LoopLength(c: seq<byte>)
    ensures |RepeatCode(c, true, true)| == |c| + 6
  {}

  lemma SetAt(items: seq<SetItem>, code: seq<byte>, k: nat, c: byte)
    requires var bm := Trim(Bitmap(items)); |bm| <= 32 && At(code, k, [CHARSET, |bm| as byte] + bm)
    ensures k + 1 < |code| && k + 2 + code[k + 1] as int <= |code| && (InMap(code, k, c) <==> InItems(items, c))
  {
    hide Trim, Bitmap, HasBit, InItems;
    BitmapMeaning(items, c);
    SetBytes(code, k, CHARSET, Trim(Bitmap(items)));
  }

  /** Only the loop and the `exactn` are entry points. */
  lemma StarThenEntries(items: seq<SetItem>, lits: seq<Literal>, x: set<int>, exit: int)
    requires 1 <= |lits| <= 255 && WfProgram(CodeAlts(StarThen(items, lits), 0), x)
    requires var code := CodeAlts(StarThen(items, lits), 0);
             IsLoop(code, 0) && LoopEnd(code, 0) + 3 == exit && exit + 2 + |lits| == |code| && code[exit] == EXACTN && code[exit + 1] == |lits|
    ensures 0 in x && exit in x && forall q :: q in x && IsLoop(CodeAlts(StarThen(items, lits), 0), q) ==> q == 0
  {
    hide CodeAlts;
    var code := CodeAlts(StarThen(items, lits), 0);
    assert 0 in x;
    assert WfAt(code, 0, x + {|code|});
    assert exit in x;
    assert !IsLoop(code, exit);
    SpansOf(code, exit);
    hide WfAt, Span, IsLoop;
    forall q | q in x && IsLoop(code, q)
      ensures q == 0
    {
      assert 0 < q ==> Span(code, 0) <= q;
      assert exit < q ==> exit + Span(code, exit) <= q;
      assert q + Span(code, q) <= |code|;
    }
  }

  lemma SpansOf(code: seq<byte>, exit: int)
    requires IsLoop(code, 0) && LoopEnd(code, 0) + 3 == exit && exit + 1 < |code| && code[exit] == EXACTN
    ensures Span(code, 0) == exit && Span(code, exit) == 2 + code[exit + 1] as int
  {}

  /** `x` are the places where commands of the program can start. */
  ghost predicate Starts(alts: seq<Branch>, x: set<int>) {
    WfProgram(CodeAlts(alts, 0), x) && Closed(CodeAlts(alts, 0), x)
  }

  lemma FragmentStarts(alts: seq<Branch>) returns (x: set<int>)
    requires |alts| > 0 && CompilableAlts(alts) && InFragment(alts)
    ensures Starts(alts, x)
  {
    hide CodeAlts, WfProgram, Closed;
    x := ProgramWf(alts);
    ProgramClosed(CodeAlts(alts, 0), x);
  }

  /** In every text, a match is found at a place exactly when there is one. */
  ghost predicate RightAlways(alts: seq<Branch>, x: set<int>)
    requires Starts(alts, x)
  {
    forall t, pos | 0 <= pos <= |t| :: MatchAt(CodeAlts(alts, 0), x, t, pos) != -1 <==> Found(alts, t, pos)
  }

  /** Matching `[items]*` and some characters finds a match wherever there is one, in every text, exactly when the
      bitmap of the bracket expression is shorter than 32 bytes or the first of the characters is not in it. */
  lemma StarThenRightIff(items: seq<SetItem>, lits: seq<Literal>)
    requires 1 <= |lits| <= 255
    ensures exists x :: Starts(StarThen(items, lits), x)
    ensures forall x | Starts(StarThen(items, lits), x) ::
              RightAlways(StarThen(items, lits), x) <==>
              (|Trim(Bitmap(items))| < 32 || !InItems(items, lits[0].c))
  {
    hide CodeAlts, Trim, Bitmap, InItems, RightAlways, StarThen, InFragment, CompilableAlts, WfProgram, Closed;
    StarThenFragment(items, lits);
    var y := FragmentStarts(StarThen(items, lits));
    forall x | Starts(StarThen(items, lits), x)
      ensures RightAlways(StarThen(items, lits), x) <==>
              (|Trim(Bitmap(items))| < 32 || !InItems(items, lits[0].c))
    {
      StarThenRight(items, lits, x);
    }
  }

  lemma StarThenRight(items: seq<SetItem>, lits: seq<Literal>, x: set<int>)
    requires 1 <= |lits| <= 255
    requires var code := CodeAlts(StarThen(items, lits), 0); WfProgram(code, x) && Closed(code, x)
    ensures RightAlways(StarThen(items, lits), x) <==>
            (|Trim(Bitmap(items))| < 32 || !InItems(items, lits[0].c))
  {
    hide CodeAlts, Trim, Bitmap, InItems, WfProgram, Closed, LangAlts, MatchAt, StarThen, Found, TestsRight;
    var alts := StarThen(items, lits);
    StarThenFragment(items, lits);
    if |Trim(Bitmap(items))| < 32 || !InItems(items, lits[0].c) {
      StarThenTests(items, lits, x);
      forall t, pos | 0 <= pos <= |t|
        ensures MatchAt(CodeAlts(alts, 0), x, t, pos) != -1 <==> Found(alts, t, pos)
      {
        MatchEnd(alts, x, t, pos);
      }
    } else {
      StarThenMisses(items, lits, x);
      StarThenFound(items, lits);
    }
  }

  lemma StarThenTests(items: seq<SetItem>, lits: seq<Literal>, x: set<int>)
    requires 1 <= |lits| <= 255 && WfProgram(CodeAlts(StarThen(items, lits), 0), x)
    requires |Trim(Bitmap(items))| < 32 || !InItems(items, lits[0].c)
    ensures TestsRight(CodeAlts(StarThen(items, lits), 0), x)
  {
    hide CodeAlts, Trim, Bitmap, InItems, WfProgram, Extract, HasBit, InMap, OneChar, ExactPops, Takes;
    var code := CodeAlts(StarThen(items, lits), 0);
    var exit := StarThenShape(items, lits);
    StarThenEntries(items, lits, x, exit);
    forall c: byte | FollowedBy(code, 0, c) && ExactPops(code, 0, c)
      ensures !Takes(code, 3, c)
    {
      AfterLoop(code, exit);
      TestWrongIff(code, 0, c);
      SetAt(items, code, 3, c);
    }
    assert TestRight(code, 0);
  }

  lemma AfterLoop(code: seq<byte>, exit: int)
    requires IsLoop(code, 0) && LoopEnd(code, 0) + 3 == exit && exit + 2 < |code| && code[exit] == EXACTN
    ensures After(code, 0) == exit
  {
    hide IsLoop;
  }

  /** The text that consists of just those characters is one of the pattern's strings. */
  lemma StarThenFound(items: seq<SetItem>, lits: seq<Literal>)
    requires 1 <= |lits|
    ensures Found(StarThen(items, lits), Chars(lits), 0)
  {
    var t, alts := Chars(lits), StarThen(items, lits);
    var r, ex := Repeat(CharSet(false, items), [Star]), Exact(lits);
    assert Power(CharSet(false, items), [], 0, t, 0, 0);
    assert LangOps(CharSet(false, items), [Star], t, 0, 0) by { assert [Star][..0] == []; }
    assert Lang(r, t, 0, 0);
    assert [r, ex][..1] == [r] && [r][..0] == [];
    assert LangBranch([], t, 0, 0);
    assert LangBranch([r], t, 0, 0);
    assert Lang(ex, t, 0, |t|);
    assert LangBranch([r, ex], t, 0, |t|);
    assert alts[0].nodes == [r, ex];
    assert LangAlts(alts, t, 0, |t|);
  }

  /** The loop takes the first character, throws away the way back, and too few characters are left. */
  lemma StarThenMisses(items: seq<SetItem>, lits: seq<Literal>, x: set<int>)
    requires 1 <= |lits| <= 255
    requires var code := CodeAlts(StarThen(items, lits), 0); WfProgram(code, x) && Closed(code, x)
    requires |Trim(Bitmap(items))| == 32 && InItems(items, lits[0].c)
    ensures MatchAt(CodeAlts(StarThen(items, lits), 0), x, Chars(lits), 0) == -1
  {
    hide CodeAlts, Trim, Bitmap, InItems, WfProgram, Closed, Extract, HasBit, InMap, OneChar, Takes, Accepts, Trace;
    var code, t := CodeAlts(StarThen(items, lits), 0), Chars(lits);
    var exit := StarThenShape(items, lits);
    StarThenEntries(items, lits, x, exit);
    AfterLoop(code, exit);
    SetAt(items, code, 3, t[0]);
    TestWrongIff(code, 0, t[0]);
    LoopTrace(code, x, t);
    var tr := Trace(code, x, t, 0, 1);
    forall k | 0 <= k < |tr| && tr[k].End?
      ensures false
    {
      assert Reaches(tr, tr[k].e);
      TraceSound(code, x, t, 0, 1, tr[k].e);
      TooLong(code, t, 1, tr[k].e, exit);
    }
    NoMatch(tr, |t|);
  }

  /** One turn of a loop that throws its failure point away. */
  lemma LoopTrace(code: seq<byte>, x: set<int>, t: seq<byte>)
    requires Closed(code, x) && 0 in x && IsLoop(code, 0) && Pops(code, 0) && |t| > 0 && Takes(code, 3, t[0])
    ensures Trace(code, x, t, 0, 0) == Trace(code, x, t, 0, 1)
  {
    hide Closed, Pops, Takes, Extract, OneChar, IsInterval;
    DecodeLeads(code, x, 0);
    var exit := LoopEnd(code, 0) + 3;
    assert Decode(code, 0) == Loop(exit);
    assert BodyTrace(code, x, t, 0, 0, Trace(code, x, t, exit, 0)) == Trace(code, x, t, 0, 1) + [];
  }

  lemma NoMatch(tr: seq<Leaf>, full: int)
    requires |tr| > 0 && full >= 0 && forall k :: 0 <= k < |tr| ==> !tr[k].End?
    ensures Outcome(tr, full) == -1
  {
    BestIs(tr[..|tr| - 1]);
  }

  /** From the loop on, a match needs the characters of the `exactn` behind it. */
  lemma {:induction false} TooLong(code: seq<byte>, t: seq<byte>, d: int, e: int, exit: int)
    requires IsLoop(code, 0) && LoopEnd(code, 0) + 3 == exit && exit + 1 < |code| && exit + 2 + code[exit + 1] == |code|
    requires code[exit] == EXACTN && code[exit + 1] >= 1 && 0 <= d <= |t| < d + code[exit + 1]
    ensures !Accepts(code, t, Thread(0, d), e)
    decreases |t| - d
  {
    hide Accepts, Takes, IsLoop;
    LoopMoves(code, t, 0, d, e);
    AcceptsExactn(code, t, exit, d, e);
    if d < |t| {
      TooLong(code, t, d + 1, e, exit);
    }
  }

  // ---- the longest match ----

  lemma OneNode(n: Node, t: seq<byte>, i: int, j: int)
    ensures LangBranch([n], t, i, j) <==> Lang(n, t, i, j)
    ensures CodeBranch([n], 0) == CodeNode(n, 0) && GroupsBranch([n]) == Groups(n)
    ensures CompilableBranch([n]) <==> Compilable(n)
    ensures SimpleLoopsBranch([n]) <==> SimpleLoops(n)
    ensures SmallSetsBranch([n]) <==> SmallSets(n)
  {
    assert [n][..0] == [];
    if Lang(n, t, i, j) {
      assert LangBranch([], t, i, i);
    }
    if LangBranch([n], t, i, j) {
      var b := [n];
      var m :| LangBranch(b[..|b| - 1], t, i, m) && Lang(b[|b| - 1], t, m, j);
    }
    BranchUnfold([n], 0);
    assert GroupsBranch([]) == 0 && CompilableBranch([]) && SimpleLoopsBranch([]) && SmallSetsBranch([]);
  }

  /** In every text, of the alternatives that match at a place the longest is reported. */
  ghost predicate LongestAlways(alts: seq<Branch>, x: set<int>)
    requires Starts(alts, x)
  {
    forall t, pos, e | 0 <= pos <= |t| && LangAlts(alts, t, pos, e) :: e <= MatchAt(CodeAlts(alts, 0), x, t, pos)
  }

  /** A pattern without a bare `|` always reports its longest match. */
  lemma OneAlternativeLongest(alts: seq<Branch>)
    requires |alts| == 1 && CompilableAlts(alts) && InFragment(alts) && SmallSetsAlts(alts)
    ensures exists x :: Starts(alts, x)
    ensures forall x | Starts(alts, x) :: LongestAlways(alts, x)
  {
    hide CodeAlts, CompilableAlts, SimpleLoopsAlts, SmallSetsAlts, WfProgram, Closed, LongestAlways, LastCode, NoWraps, TestsRight;
    var code := CodeAlts(alts, 0);
    var y := ProgramWf(alts);
    ProgramClosed(code, y);
    NoWrapsTests(code, y);
    assert Starts(alts, y);
    forall x | Starts(alts, x)
      ensures LongestAlways(alts, x)
    {
      LongestFrom(alts, x, y);
    }
  }

  lemma LongestFrom(alts: seq<Branch>, x: set<int>, y: set<int>)
    requires |alts| == 1 && CompilableAlts(alts) && InFragment(alts) && Starts(alts, x) && Starts(alts, y)
    requires TestsRight(CodeAlts(alts, 0), y)
    ensures LongestAlways(alts, x)
  {
    hide CodeAlts, CompilableAlts, SimpleLoopsAlts, WfProgram, Closed, LastCode, TestsRight, LangAlts, Trace, Outcome, Accepts, LeastFrom;
    var code := CodeAlts(alts, 0);
    StartIn(code, x);
    StartIn(code, y);
    forall t, pos, e | 0 <= pos <= |t| && LangAlts(alts, t, pos, e)
      ensures e <= MatchAt(code, x, t, pos)
    {
      CodeAccepts(alts, t, pos, e);
      OneAlternative(alts, y, t, pos);
      LeastLongest(code, y, t, pos);
      LeavesSame(code, x, y, t, 0, pos);
    }
  }

  /** Any pattern put in brackets stands for the same strings and reports its longest match. */
  lemma InBracketsLongest(alts: seq<Branch>)
    requires |alts| > 0 && CompilableAlts(alts) && SimpleLoopsAlts(alts) && SmallSetsAlts(alts)
    requires |CodeAlts(InBrackets(alts), 0)| < 32768
    ensures forall t, i, j :: LangAlts(InBrackets(alts), t, i, j) <==> LangAlts(alts, t, i, j)
    ensures exists x :: Starts(InBrackets(alts), x)
    ensures forall x | Starts(InBrackets(alts), x) :: LongestAlways(InBrackets(alts), x)
  {
    hide *;
    BracketsShape(alts);
    forall t, i, j
      ensures LangAlts(InBrackets(alts), t, i, j) <==> LangAlts(alts, t, i, j)
    {
      BracketsLang(alts, t, i, j);
    }
    OneAlternativeLongest(InBrackets(alts));
  }

  function InBrackets(alts: seq<Branch>): seq<Branch> {
    [Branch([Group(alts)])]
  }

  lemma BracketsShape(alts: seq<Branch>)
    requires |alts| > 0 && CompilableAlts(alts) && SimpleLoopsAlts(alts) && SmallSetsAlts(alts)
    requires |CodeAlts(InBrackets(alts), 0)| < 32768
    ensures |InBrackets(alts)| == 1 && CompilableAlts(InBrackets(alts)) && InFragment(InBrackets(alts)) && SmallSetsAlts(InBrackets(alts))
  {
    hide CodeAlts;
    var n := Group(alts);
    assert Compilable(n) && SimpleLoops(n) && SmallSets(n);
    assert [n][..0] == [] && CompilableBranch([]) && SimpleLoopsBranch([]) && SmallSetsBranch([]);
    assert CompilableBranch([n]) && SimpleLoopsBranch([n]) && SmallSetsBranch([n]);
    assert InBrackets(alts)[1..] == [] && CompilableAlts([]) && SimpleLoopsAlts([]) && SmallSetsAlts([]);
  }

  lemma BracketsLang(alts: seq<Branch>, t: seq<byte>, i: int, j: int)
    ensures LangAlts(InBrackets(alts), t, i, j) <==> LangAlts(alts, t, i, j)
  {
    hide LangBranch;
    OneNode(Group(alts), t, i, j);
    assert InBrackets(alts)[1..] == [];
    if LangAlts(alts, t, i, j) {
      LangAltsBounds(alts, t, i, j);
    }
    assert !LangAlts([], t, i, j);
  }

  // ---- several bare alternatives ----

  /** In no text is a match of `b` longer than all matches of the alternatives before it, one at least, and not at the end. */
  ghost predicate NeverOvertakes(alts: seq<Branch>, b: Branch) {
    forall t, pos, e :: 0 <= pos <= |t| && LangBranch(b.nodes, t, pos, e) ==> !Overtakes(alts, t, pos, e)
  }

  /** Any bare alternatives report their longest match in every text if the last one never overtakes those before it; when
      the last one contains no choice of its own, exactly then. */
  lemma LastAlternativeIff(alts: seq<Branch>, b: Branch)
    requires CompilableAlts(alts + [b]) && InFragment(alts + [b]) && SmallSetsAlts(alts + [b])
    ensures exists x :: Starts(alts + [b], x)
    ensures forall x | Starts(alts + [b], x) :: NeverOvertakes(alts, b) ==> LongestAlways(alts + [b], x)
    ensures StraightBranch(b.nodes) ==> forall x | Starts(alts + [b], x) :: LongestAlways(alts + [b], x) ==> NeverOvertakes(alts, b)
  {
    hide CodeAlts, CompilableAlts, InFragment, SmallSetsAlts, WfProgram, Closed, LongestAlways, NeverOvertakes, NoWraps, TestsRight, LastCode,
      NoLastJump, StraightBranch;
    var all := alts + [b];
    var code := CodeAlts(all, 0);
    var y := TestedStarts(all);
    forall x | Starts(all, x)
      ensures NeverOvertakes(alts, b) ==> LongestAlways(all, x)
      ensures StraightBranch(b.nodes) && LongestAlways(all, x) ==> NeverOvertakes(alts, b)
    {
      if NeverOvertakes(alts, b) {
        LongestWhere(alts, b, x, y);
      } else if StraightBranch(b.nodes) {
        OvertakenSomewhere(alts, b, x, y);
      }
    }
  }

  lemma TestedStarts(alts: seq<Branch>) returns (y: set<int>)
    requires |alts| > 0 && CompilableAlts(alts) && InFragment(alts) && SmallSetsAlts(alts)
    ensures Starts(alts, y) && TestsRight(CodeAlts(alts, 0), y)
  {
    hide CodeAlts, CompilableAlts, SimpleLoopsAlts, SmallSetsAlts, WfProgram, Closed, NoWraps, TestsRight, LastCode, NoLastJump;
    y := ProgramWf(alts);
    ProgramClosed(CodeAlts(alts, 0), y);
    NoWrapsTests(CodeAlts(alts, 0), y);
  }

  /** What is reported at one place, and that it does not depend on the entry points. */
  lemma Reported(alts: seq<Branch>, x: set<int>, y: set<int>, t: seq<byte>, pos: int)
    requires |alts| > 0 && CompilableAlts(alts) && InFragment(alts) && Starts(alts, x) && Starts(alts, y) && 0 <= pos <= |t|
    ensures var code := CodeAlts(alts, 0);
            && AltsAt(alts, 0, code, 0) && 0 in y + {|code|} && MatchAt(code, x, t, pos) == Outcome(Trace(code, y, t, 0, pos), |t|)
    ensures forall e :: LangAlts(alts, t, pos, e) <==> Accepts(CodeAlts(alts, 0), t, Thread(0, pos), e)
  {
    hide CodeAlts, CompilableAlts, SimpleLoopsAlts, WfProgram, Closed, LangAlts, Trace, Outcome, Accepts;
    var code := CodeAlts(alts, 0);
    StartIn(code, x);
    StartIn(code, y);
    LeavesSame(code, x, y, t, 0, pos);
    WholeCode(code);
    forall e
      ensures LangAlts(alts, t, pos, e) <==> Accepts(code, t, Thread(0, pos), e)
    {
      CodeAccepts(alts, t, pos, e);
    }
  }

  lemma {:induction false} LastCompilable(alts: seq<Branch>, b: Branch)
    requires CompilableAlts(alts + [b]) && SimpleLoopsAlts(alts + [b])
    ensures CompilableBranch(b.nodes) && SimpleLoopsBranch(b.nodes)
  {
    hide CompilableBranch, SimpleLoopsBranch;
    if |alts| > 0 {
      assert (alts + [b])[1..] == alts[1..] + [b];
      LastCompilable(alts[1..], b);
    }
  }

  lemma LongestWhere(alts: seq<Branch>, b: Branch, x: set<int>, y: set<int>)
    requires CompilableAlts(alts + [b]) && InFragment(alts + [b]) && Starts(alts + [b], x) && Starts(alts + [b], y)
    requires TestsRight(CodeAlts(alts + [b], 0), y) && NeverOvertakes(alts, b)
    ensures LongestAlways(alts + [b], x)
  {
    hide CodeAlts, CompilableAlts, SimpleLoopsAlts, WfProgram, Closed, TestsRight, LangAlts, LangBranch, Trace, Outcome, Accepts, Overtakes, MatchAt,
      AltsAt;
    var all := alts + [b];
    var code := CodeAlts(all, 0);
    LastCompilable(alts, b);
    forall t, pos, e | 0 <= pos <= |t| && LangAlts(all, t, pos, e)
      ensures e <= MatchAt(code, x, t, pos)
    {
      Reported(all, x, y, t, pos);
      AnyLast(alts, b, code, y, t, pos);
    }
  }

  lemma OvertakenSomewhere(alts: seq<Branch>, b: Branch, x: set<int>, y: set<int>)
    requires CompilableAlts(alts + [b]) && InFragment(alts + [b]) && Starts(alts + [b], x) && Starts(alts + [b], y)
    requires TestsRight(CodeAlts(alts + [b], 0), y) && !NeverOvertakes(alts, b) && StraightBranch(b.nodes)
    ensures !LongestAlways(alts + [b], x)
  {
    hide CodeAlts, CompilableAlts, SimpleLoopsAlts, WfProgram, Closed, TestsRight, LangAlts, LangBranch, Trace, Outcome, Accepts, Overtakes, MatchAt,
      AltsAt;
    var t, pos, e :| 0 <= pos <= |t| && LangBranch(b.nodes, t, pos, e) && Overtakes(alts, t, pos, e);
    MissedAt(alts, b, x, y, t, pos, e);
  }

  /** At a place where the last alternative overtakes the others its match is not the one reported. */
  lemma MissedAt(alts: seq<Branch>, b: Branch, x: set<int>, y: set<int>, t: seq<byte>, pos: int, e: int)
    requires CompilableAlts(alts + [b]) && InFragment(alts + [b]) && Starts(alts + [b], x) && Starts(alts + [b], y)
    requires TestsRight(CodeAlts(alts + [b], 0), y) && StraightBranch(b.nodes)
    requires 0 <= pos <= |t| && LangBranch(b.nodes, t, pos, e) && Overtakes(alts, t, pos, e)
    ensures exists e' :: LangAlts(alts + [b], t, pos, e') && e' > MatchAt(CodeAlts(alts + [b], 0), x, t, pos)
    ensures LangAlts(alts + [b], t, pos, MatchAt(CodeAlts(alts + [b], 0), x, t, pos))
  {
    hide CodeAlts, CompilableAlts, SimpleLoopsAlts, WfProgram, Closed, TestsRight, LangAlts, LangBranch, Trace, Outcome, Accepts, MatchAt,
      AltsAt, StraightBranch;
    hide Overtakes;
    var all := alts + [b];
    LastCompilable(alts, b);
    Reported(all, x, y, t, pos);
    StraightLast(alts, b, CodeAlts(all, 0), y, t, pos);
    OutcomeMeaning(CodeAlts(all, 0), y, t, pos);
  }

  // ---- words ----

  /** The characters `u` are found at `pos`. */
  ghost predicate AtText(u: seq<Literal>, t: seq<byte>, pos: int) {
    Lang(Exact(u), t, pos, pos + |u|)
  }

  function Word(u: seq<Literal>): Branch {
    Branch([Exact(u)])
  }

  /** The alternatives `u1|u2|...` of characters. */
  function Words(us: seq<seq<Literal>>): seq<Branch> {
    seq(|us|, i requires 0 <= i < |us| => Word(us[i]))
  }

  predicate WordsOk(us: seq<seq<Literal>>) {
    forall i :: 0 <= i < |us| ==> 1 <= |us[i]| <= 255
  }

  lemma {:induction false} WordsLang(us: seq<seq<Literal>>, t: seq<byte>, i: int, j: int)
    ensures LangAlts(Words(us), t, i, j) <==> exists k :: 0 <= k < |us| && AtText(us[k], t, i) && j == i + |us[k]|
  {
    hide LangBranch;
    if |us| > 0 {
      var rest := us[1..];
      assert Words(us)[0] == Word(us[0]) && Words(us)[1..] == Words(rest);
      OneNode(Exact(us[0]), t, i, j);
      WordsLang(rest, t, i, j);
      WordFirst(us[0], t, i, j);
      forall k | 0 <= k < |rest|
        ensures rest[k] == us[k + 1]
      {}
    }
  }

  lemma WordFirst(u: seq<Literal>, t: seq<byte>, i: int, j: int)
    ensures Lang(Exact(u), t, i, j) <==> AtText(u, t, i) && j == i + |u|
  {}

  lemma {:induction false} WordsFragment(us: seq<seq<Literal>>)
    requires WordsOk(us)
    ensures CompilableAlts(Words(us)) && SimpleLoopsAlts(Words(us)) && SmallSetsAlts(Words(us))
  {
    hide CompilableBranch, SimpleLoopsBranch, SmallSetsBranch, LangBranch, CodeBranch;
    if |us| > 0 {
      assert Words(us)[0] == Word(us[0]) && Words(us)[1..] == Words(us[1..]);
      OneNode(Exact(us[0]), [], 0, 0);
      WordsFragment(us[1..]);
    }
  }

  /** `u` is a proper beginning of `v`. */
  predicate Begins(u: seq<Literal>, v: seq<Literal>) {
    Chars(u) < Chars(v)
  }

  /** None of the words is `v` with `c` behind it. */
  predicate Unfollowed(us: seq<seq<Literal>>, v: seq<Literal>, c: byte) {
    forall i :: 0 <= i < |us| ==> Chars(us[i]) != Chars(v) + [c]
  }

  /** Some word is a proper beginning of `v`, none is `v`, and not every character has a word with it behind `v`. */
  predicate Missed(us: seq<seq<Literal>>, v: seq<Literal>) {
    && (exists i :: 0 <= i < |us| && Begins(us[i], v)) && (forall i :: 0 <= i < |us| ==> Chars(us[i]) != Chars(v))
    && exists c: byte :: Unfollowed(us, v, c)
  }

  lemma TextIs(u: seq<Literal>, t: seq<byte>, pos: int)
    ensures AtText(u, t, pos) <==> 0 <= pos && pos + |u| <= |t| && t[pos..pos + |u|] == Chars(u)
  {
    if 0 <= pos && pos + |u| <= |t| {
      var s := t[pos..pos + |u|];
      assert forall i :: 0 <= i < |u| ==> t[pos + i] == s[i];
      assert AtText(u, t, pos) <==> s == Chars(u);
    }
  }

  /** The text in which the last word is missed: nothing but the word and a character. */
  lemma MissedOvertakes(us: seq<seq<Literal>>, v: seq<Literal>, c: byte)
    requires Missed(us, v) && Unfollowed(us, v, c)
    ensures AtText(v, Chars(v) + [c], 0) && Overtakes(Words(us), Chars(v) + [c], 0, |v|)
  {
    hide LangAlts, AtText, Words;
    var t := Chars(v) + [c];
    TextIs(v, t, 0);
    assert t[..|v|] == Chars(v);
    forall e
      ensures LangAlts(Words(us), t, 0, e) <==> exists k :: 0 <= k < |us| && AtText(us[k], t, 0) && e == |us[k]|
    {
      WordsLang(us, t, 0, e);
    }
    forall k | 0 <= k < |us|
      ensures AtText(us[k], t, 0) ==> |us[k]| < |v|
      ensures Begins(us[k], v) ==> AtText(us[k], t, 0)
    {
      TextIs(us[k], t, 0);
      NotAsLong(us[k], v, c);
    }
    var i :| 0 <= i < |us| && Begins(us[i], v);
    assert LangAlts(Words(us), t, 0, |us[i]|);
  }

  lemma NotAsLong(u: seq<Literal>, v: seq<Literal>, c: byte)
    requires Chars(u) != Chars(v) && Chars(u) != Chars(v) + [c]
    ensures var t := Chars(v) + [c];
            && (|u| <= |t| && t[0..|u|] == Chars(u) ==> |u| < |v|)
            && (Begins(u, v) ==> |u| <= |t| && t[0..|u|] == Chars(u))
  {
    var t := Chars(v) + [c];
    assert t[0..|t|] == t && t[0..|v|] == Chars(v);
  }

  /** Where the last word is longer than all others that match. */
  lemma OvertakesMissed(us: seq<seq<Literal>>, v: seq<Literal>, t: seq<byte>, pos: int)
    requires AtText(v, t, pos) && Overtakes(Words(us), t, pos, pos + |v|)
    ensures Missed(us, v)
  {
    hide LangAlts, AtText, Words;
    TextIs(v, t, pos);
    var e :| LangAlts(Words(us), t, pos, e);
    WordsLang(us, t, pos, e);
    var k :| 0 <= k < |us| && AtText(us[k], t, pos) && e == pos + |us[k]|;
    TextIs(us[k], t, pos);
    ShorterBegins(us[k], v, t, pos);
    var c := t[pos + |v|];
    assert t[pos..pos + |v| + 1] == Chars(v) + [c];
    forall i | 0 <= i < |us|
      ensures Chars(us[i]) != Chars(v) && Chars(us[i]) != Chars(v) + [c]
    {
      TextIs(us[i], t, pos);
      WordsLang(us, t, pos, pos + |us[i]|);
    }
    assert Unfollowed(us, v, c);
  }

  lemma ShorterBegins(u: seq<Literal>, v: seq<Literal>, t: seq<byte>, pos: int)
    requires 0 <= pos && pos + |v| <= |t| && |u| < |v| && t[pos..pos + |u|] == Chars(u) && t[pos..pos + |v|] == Chars(v)
    ensures Begins(u, v)
  {
    assert t[pos..pos + |v|][..|u|] == t[pos..pos + |u|];
  }

  lemma MissedIff(us: seq<seq<Literal>>, v: seq<Literal>)
    ensures NeverOvertakes(Words(us), Word(v)) <==> !Missed(us, v)
  {
    hide LangAlts, Words, Missed, Overtakes, LangBranch;
    if Missed(us, v) {
      var c := MissedChar(us, v);
      MissedOvertakes(us, v, c);
      OneNode(Exact(v), Chars(v) + [c], 0, |v|);
    } else {
      forall t, pos, e | 0 <= pos <= |t| && LangBranch(Word(v).nodes, t, pos, e)
        ensures !Overtakes(Words(us), t, pos, e)
      {
        OneNode(Exact(v), t, pos, e);
        WordFirst(v, t, pos, e);
        if Overtakes(Words(us), t, pos, e) {
          OvertakesMissed(us, v, t, pos);
        }
      }
    }
  }

  lemma MissedChar(us: seq<seq<Literal>>, v: seq<Literal>) returns (c: byte)
    requires Missed(us, v)
    ensures Unfollowed(us, v, c)
  {
    c :| Unfollowed(us, v, c);
  }

  /** Of bare alternatives of characters, any number of them, the longest that matches is reported in every text, exactly
      unless an earlier one is a proper beginning of the last, none is equal to it, and some character may follow it without
      making another one match. */
  lemma WordsLongestIff(us: seq<seq<Literal>>, v: seq<Literal>)
    requires WordsOk(us + [v]) && |CodeAlts(Words(us) + [Word(v)], 0)| < 32768
    ensures exists x :: Starts(Words(us) + [Word(v)], x)
    ensures forall x | Starts(Words(us) + [Word(v)], x) :: LongestAlways(Words(us) + [Word(v)], x) <==> !Missed(us, v)
  {
    hide CodeAlts, CompilableAlts, SimpleLoopsAlts, SmallSetsAlts, Starts, LongestAlways, NeverOvertakes, Missed;
    WordsFragment(us + [v]);
    assert Words(us + [v]) == Words(us) + [Word(v)];
    LastAlternativeIff(Words(us), Word(v));
    MissedIff(us, v);
  }

  /** The characters `u` or the characters `v`. */
  function Either(u: seq<Literal>, v: seq<Literal>): seq<Branch> {
    [Word(u), Word(v)]
  }

  lemma EitherSize(u: seq<Literal>, v: seq<Literal>)
    requires 1 <= |u| <= 255 && 1 <= |v| <= 255
    ensures |CodeAlts(Either(u, v), 0)| < 32768 && Either(u, v) == Words([u]) + [Word(v)] && WordsOk([u] + [v])
  {
    hide CodeNode, CodeBranch, CodeAlts;
    var alts := Either(u, v);
    OneNode(Exact(u), [], 0, 0);
    OneNode(Exact(v), [], 0, 0);
    assert alts[1..] == [Word(v)];
    CodeAltsOne(Word(v), 0);
    CodeAltsUnfold(alts, 0);
    ExactSize(u);
    ExactSize(v);
  }

  lemma ExactSize(u: seq<Literal>)
    ensures |CodeNode(Exact(u), 0)| == |u| + 2 && Groups(Exact(u)) == 0
  {}

  /** For a bare `u|v` of characters the longest alternative that matches is reported in every text, exactly when the first one is
      not a proper beginning of the second.  `a|ab` on `abc` is an instance where it is not. */
  lemma LongestAlternativeIff(u: seq<Literal>, v: seq<Literal>)
    requires 1 <= |u| <= 255 && 1 <= |v| <= 255
    ensures exists x :: Starts(Either(u, v), x)
    ensures forall x | Starts(Either(u, v), x) :: LongestAlways(Either(u, v), x) <==> !Begins(u, v)
  {
    hide CodeAlts, Starts, LongestAlways, Either, Words, Word;
    EitherSize(u, v);
    WordsLongestIff([u], v);
    OneBefore(u, v);
  }

  lemma OneBefore(u: seq<Literal>, v: seq<Literal>)
    ensures Missed([u], v) <==> Begins(u, v)
  {
    assert [u][0] == u;
    if Begins(u, v) {
      assert Unfollowed([u], v, 0);
    }
  }

  /** `a|ab` on `abc`: the match reported ends after one character although one of two characters exists. */
  lemma ShorterReported()
    ensures ReadPattern([97, BAR, 97, 98]) == Read(AOrAb()) && LangAlts(AOrAb(), [97, 98, 99], 0, 2)
    ensures exists x :: Starts(AOrAb(), x)
    ensures forall x | Starts(AOrAb(), x) :: MatchAt(CodeAlts(AOrAb(), 0), x, [97, 98, 99], 0) == 1
  {
    hide CodeAlts, WfProgram, Closed, LangAlts, LangBranch, MatchAt, ReadPattern, CompilableAlts, SimpleLoopsAlts, SmallSetsAlts, Overtakes, TestsRight;
    var u, v := [Literal(97, false)], [Literal(97, false), Literal(98, false)];
    var t: seq<byte> := [97, 98, 99];
    ReadAOrAb();
    EitherSize(u, v);
    WordsFragment([u] + [v]);
    assert Words([u] + [v]) == AOrAb();
    var y := TestedStarts(AOrAb());
    AOrAbLang();
    forall x | Starts(AOrAb(), x)
      ensures MatchAt(CodeAlts(AOrAb(), 0), x, t, 0) == 1
    {
      MissedAt(Words([u]), Word(v), x, y, t, 0, 2);
    }
  }

  /** What matches in `abc`. */
  lemma AOrAbLang()
    ensures var t, v := [97, 98, 99], [Literal(97, false), Literal(98, false)];
            && (forall e :: LangAlts(AOrAb(), t, 0, e) <==> e == 1 || e == 2) && LangBranch(Word(v).nodes, t, 0, 2)
            && Overtakes(Words([[Literal(97, false)]]), t, 0, 2)
  {
    hide LangAlts, LangBranch;
    var u, v, t := [Literal(97, false)], [Literal(97, false), Literal(98, false)], [97, 98, 99];
    assert Words([u, v]) == AOrAb() && [u, v][0] == u && [u, v][1] == v && [u][0] == u;
    assert AtText(u, t, 0) && AtText(v, t, 0);
    OneNode(Exact(v), t, 0, 2);
    forall e
      ensures LangAlts(AOrAb(), t, 0, e) <==> e == 1 || e == 2
      ensures LangAlts(Words([u]), t, 0, e) <==> e == 1
    {
      WordsLang([u, v], t, 0, e);
      WordsLang([u], t, 0, e);
    }
    assert LangAlts(Words([u]), t, 0, 1);
  }

  function AOrAb(): seq<Branch> {
    Either([Literal(97, false)], [Literal(97, false), Literal(98, false)])
  }

  lemma ReadAOrAb()
    ensures ReadPattern([97, BAR, 97, 98]) == Read(Either([Literal(97, false)], [Literal(97, false), Literal(98, false)]))
  {
    var pattern: seq<byte> := [97, BAR, 97, 98];
    var a, b := Literal(97, false), Literal(98, false);
    var r0 := Reader([], [], []);
    var r1 := Reader([], [], [Exact([a])]);
    var r2 := Reader([], [Branch([Exact([a])])], []);
    var r3 := Reader([], [Branch([Exact([a])])], [Exact([a])]);
    var r4 := Reader([], [Branch([Exact([a])])], [Exact([a, b])]);
    assert ReadNext(pattern, 0, r0) == Go(r1, 1);
    assert ReadNext(pattern, 1, r1) == Go(r2, 2);
    assert ReadNext(pattern, 2, r2) == Go(r3, 3);
    assert [a] + [b] == [a, b] && [Exact([a])][..0] + [Exact([a, b])] == [Exact([a, b])];
    assert ReadNext(pattern, 3, r3) == Go(r4, 4);
    assert ReadFrom(pattern, 4, r4) == Read(r4.done + [Branch(r4.branch)]);
    assert ReadFrom(pattern, 3, r3) == ReadFrom(pattern, 4, r4);
    assert ReadFrom(pattern, 2, r2) == ReadFrom(pattern, 3, r3);
    assert ReadFrom(pattern, 1, r1) == ReadFrom(pattern, 2, r2);
  }
}
