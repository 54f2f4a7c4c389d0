/** `regcomp` and `regexec`: what a search reports, in terms of the strings a pattern stands for. */
module Patterns {
  import opened Allocation
  import opened Bytes
  import opened Regex
  import opened Code
  import opened Machine
  import opened CompilerCorrect
  import opened WellFormed
  import opened Traces
  import opened MatchSpec
  import opened PatternBuffers
  import opened Search
  import opened Reading
  import opened Shapes
  import opened RegexCompile

  /** The patterns the matching results are about: loops and intervals on single characters, and jumps that fit 16 signed bits. */
  predicate InFragment(alts: seq<Branch>) {
    SimpleLoopsAlts(alts) && |CodeAlts(alts, 0)| < 32768
  }

  /** Something stands behind the last `|` of the outermost level. */
  predicate EndsInCode(alts: seq<Branch>) {
    |alts| <= 1 || |LastCode(alts, 0)| > 0
  }

  /** `regcomp` with REG_EXTENDED: compile a pattern into a new pattern buffer. */
  method RegComp(pattern: seq<byte>, mem: Allocator) returns (e: ErrorCode, preg: PatternBuffer?)
    requires !mem.failed
    modifies mem
    ensures (e == ESpace) == mem.failed
    ensures e == NoError ==>
            && preg != null && fresh(preg) && fresh(preg.buffer) && preg.fastmap == null
            && ReadPattern(pattern).Read? && preg.code == CodeAlts(ReadPattern(pattern).alts, 0)
            && preg.used <= preg.buffer.Length && preg.buffer[..preg.used] == preg.code
            && (InFragment(ReadPattern(pattern).alts) ==> preg.Compiled())
            && (InFragment(ReadPattern(pattern).alts) && EndsInCode(ReadPattern(pattern).alts) ==> preg.Scannable())
            && (InFragment(ReadPattern(pattern).alts) && SmallSetsAlts(ReadPattern(pattern).alts) ==> TestsRight(preg.code, preg.x))
    ensures e == NoError || e == ESpace || e == ESize || ReadPattern(pattern) == Failed(e)
    ensures e == ESize && ReadPattern(pattern).Read? ==> |CodeAlts(ReadPattern(pattern).alts, 0)| + 1 + MOST > MAX_BUF_SIZE
  {
    hide CodeAlts, SmallSetsAlts, ReadPattern, TestsRight, Variant, EndsInCode, NoLastJump;
    preg := null;
    var ok := mem.Request();
    if !ok {
      return ESpace, preg;
    }
    var buffer := new byte[INIT_BUF_SIZE];
    var compiler := new Compiler(pattern, buffer, mem);
    e := compiler.Run();
    if e != NoError {
      return;
    }
    ghost var alts := ReadPattern(pattern).alts;
    ghost var x := {};
    if InFragment(alts) {
      x := FragmentWf(pattern);
    }
    preg := new PatternBuffer(compiler.buffer, compiler.b, null, CodeAlts(alts, 0), x);
  }

  /** A pattern of the fragment compiles to a well-formed program. */
  lemma FragmentWf(pattern: seq<byte>) returns (x: set<int>)
    requires ReadPattern(pattern).Read? && InFragment(ReadPattern(pattern).alts)
    ensures var alts := ReadPattern(pattern).alts;
            var code := CodeAlts(alts, 0);
            && |alts| > 0 && CompilableAlts(alts) && WfProgram(code, x) && Closed(code, x) && Variant(code, code, x)
            && (SmallSetsAlts(alts) ==> TestsRight(code, x)) && (EndsInCode(alts) ==> NoLastJump(code, x, |code|))
  {
    hide WfProgram, Closed, Variant, TestsRight, NoWraps, ReadPattern, NoLastJump;
    var alts := ReadPattern(pattern).alts;
    var code := CodeAlts(alts, 0);
    ReadShaped(pattern);
    AltsCompilable(alts);
    x := ProgramWf(alts);
    ProgramClosed(code, x);
    VariantSelf(code, x);
    if SmallSetsAlts(alts) {
      NoWrapsTests(code, x);
    }
  }

  lemma NoWrapsTests(code: seq<byte>, x: set<int>)
    requires NoWraps(code, x)
    ensures TestsRight(code, x)
  {
    hide ExactPops, Takes, InMap, FollowedBy, Extract, OneChar;
    forall q, c: byte | q in x && IsLoop(code, q) && FollowedBy(code, q, c) && ExactPops(code, q, c)
      ensures !Takes(code, q + 3, c)
    {
      TestWrongIff(code, q, c);
      assert !Wraps(code, q);
    }
  }

  // ---- matching ----

  /** The pattern matches somewhere from `s` on. */
  ghost predicate Found(alts: seq<Branch>, t: seq<byte>, s: int) {
    exists e :: LangAlts(alts, t, s, e)
  }

  /** Where matching at `pos` ends, against the strings of the pattern: -1 exactly when none starts there, otherwise
      the end of one of them, and the end of the text if one of them reaches it. */
  lemma MatchEnd(alts: seq<Branch>, x: set<int>, t: seq<byte>, pos: int)
    requires |alts| > 0 && CompilableAlts(alts) && InFragment(alts)
    requires var code := CodeAlts(alts, 0); WfProgram(code, x) && Closed(code, x) && TestsRight(code, x)
    requires 0 <= pos <= |t|
    ensures var e := MatchAt(CodeAlts(alts, 0), x, t, pos);
            && (e == -1 <==> !Found(alts, t, pos)) && (e != -1 ==> LangAlts(alts, t, pos, e))
            && (LangAlts(alts, t, pos, |t|) ==> e == |t|)
  {
    hide WfProgram, Closed, TestsRight, CodeAlts, CompilableAlts, SimpleLoopsAlts, LangAlts, Accepts, Trace, Outcome, LastCode;
    var code := CodeAlts(alts, 0);
    OutcomeMeaning(code, x, t, pos);
    forall e
      ensures Accepts(code, t, Thread(0, pos), e) <==> LangAlts(alts, t, pos, e)
    {
      CodeAccepts(alts, t, pos, e);
    }
    StartIn(code, x);
  }

  lemma MatchesFound(alts: seq<Branch>, x: set<int>, t: seq<byte>, s: int)
    requires |alts| > 0 && CompilableAlts(alts) && InFragment(alts)
    requires var code := CodeAlts(alts, 0); WfProgram(code, x) && Closed(code, x) && TestsRight(code, x)
    ensures Matches(CodeAlts(alts, 0), x, t, s) <==> Found(alts, t, s)
  {
    hide WfProgram, Closed, TestsRight, CodeAlts, CompilableAlts, SimpleLoopsAlts, LangAlts, MatchAt, LastCode;
    if 0 <= s <= |t| {
      MatchEnd(alts, x, t, s);
    } else if e :| LangAlts(alts, t, s, e) {
      LangAltsBounds(alts, t, s, e);
    }
  }

  /** `re_search`: the first place, from `startpos` towards `startpos + range`, where one of the pattern's strings starts. */
  method ReSearch(preg: PatternBuffer, text: seq<byte>, startpos: int, range: int, mem: Allocator, ghost alts: seq<Branch>) returns (r: int)
    requires !mem.failed && preg.Compiled() && preg.code == CodeAlts(alts, 0)
    requires |alts| > 0 && CompilableAlts(alts) && InFragment(alts) && TestsRight(preg.code, preg.x)
    requires preg.fastmap != null ==> preg.fastmap.Length == 256
    requires preg.fastmap != null && !preg.fastmapAccurate ==> preg.Scannable()
    requires preg.fastmap != null && preg.fastmapAccurate ==> FastmapRight(preg.code, preg.fastmap[..], preg.canBeNull)
    modifies preg`fastmapAccurate, preg`canBeNull, preg.buffer, mem, if preg.fastmap == null then {} else {preg.fastmap}
    ensures preg.Compiled() && r >= -2 && (r == -2) == mem.failed
    ensures !(0 <= startpos <= |text|) ==> r == -1
    ensures 0 <= startpos <= |text| && r >= 0 ==>
            && Tried(startpos, range, |text|, r) && Found(alts, text, r)
            && forall s :: Tried(startpos, range, |text|, s) && Before(range, s, r) ==> !Found(alts, text, s)
    ensures 0 <= startpos <= |text| && r == -1 ==> forall s :: Tried(startpos, range, |text|, s) ==> !Found(alts, text, s)
    ensures r != -2 && preg.fastmap != null && preg.fastmapAccurate ==> FastmapRight(preg.code, preg.fastmap[..], preg.canBeNull)
  {
    hide WfProgram, Closed, Variant, TestsRight, CodeAlts, CompilableAlts, LangAlts, Matches, InFragment, Found, FastmapRight, Before;
    assert forall s :: Tried(startpos, range, |text|, s) ==> s <= |text|;
    hide Tried;
    ghost var x := preg.x;
    r := ReSearch2(preg, text, startpos, range, |text|, mem);
    assert text[..|text|] == text;
    forall s
      ensures Matches(preg.code, x, text, s) <==> Found(alts, text, s)
    {
      MatchesFound(alts, x, text, s);
    }
  }

  /** `regexec`: search the whole text.  `start` is the value `re_search` returns: -2 when the matcher ran out of room. */
  method RegExec(preg: PatternBuffer, text: seq<byte>, mem: Allocator, ghost alts: seq<Branch>) returns (found: bool, start: int)
    requires !mem.failed && preg.Compiled() && preg.code == CodeAlts(alts, 0) && preg.fastmap == null
    requires |alts| > 0 && CompilableAlts(alts) && InFragment(alts) && TestsRight(preg.code, preg.x)
    modifies preg`fastmapAccurate, preg`canBeNull, preg.buffer, mem
    ensures preg.Compiled() && found == (start >= 0) && start >= -2 && (start == -2) == mem.failed
    ensures start >= 0 ==> Found(alts, text, start) && forall s :: 0 <= s < start ==> !Found(alts, text, s)
    ensures start == -1 ==> forall s :: !Found(alts, text, s)
  {
    hide WfProgram, Closed, Variant, TestsRight, CodeAlts, CompilableAlts, LangAlts, InFragment, Found;
    start := ReSearch(preg, text, 0, |text|, mem, alts);
    found := start >= 0;
    forall s
      ensures Found(alts, text, s) ==> Tried(0, |text|, |text|, s)
    {
      FoundInside(alts, text, s);
    }
    assert forall s :: 0 <= s < start ==> Before(|text|, s, start) || start > |text|;
  }

  lemma FoundInside(alts: seq<Branch>, t: seq<byte>, s: int)
    ensures Found(alts, t, s) ==> 0 <= s <= |t|
  {
    hide LangAlts;
    if e :| LangAlts(alts, t, s, e) {
      LangAltsBounds(alts, t, s, e);
    }
  }
}
