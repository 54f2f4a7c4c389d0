/** How long the code of what has been read is: reading on never makes it shorter. */
module Sizes {
  import opened Bytes
  import opened Opcodes
  import opened Regex
  import opened Code
  import opened Reading
  import opened Layout

  function LevelSize(done: seq<Branch>, branch: seq<Node>, g: nat): nat {
    |LevelCode(done, branch, g, [0, 0, 0])|
  }

  function StackSize(stack: seq<Frame>): nat {
    if |stack| == 0 then 0
    else
      var init, last := stack[..|stack| - 1], stack[|stack| - 1];
      StackSize(init) + LevelSize(last.done, last.branch, Base(init)) + |StartBytes(Base(stack))|
  }

  /** The bytes in the buffer when `rd` has been read, those left open included. */
  function CodeSize(rd: Reader): nat {
    StackSize(rd.stack) + LevelSize(rd.done, rd.branch, Base(rd.stack))
  }

  /** What has been read after `n` constructs of the pattern, and where the next one starts. */
  function ReadUpTo(pattern: seq<byte>, n: nat): (r: Next)
    ensures r.Go? ==> r.p <= |pattern|
  {
    if n == 0 then Go(Reader([], [], []), 0)
    else
      match ReadUpTo(pattern, n - 1)
      case Go(rd, p) => if p < |pattern| then ReadNext(pattern, p, rd) else Stop(NoError)
      case Stop(e) => Stop(e)
  }

  lemma {:induction false} ReadsOn(pattern: seq<byte>, n: nat)
    requires ReadUpTo(pattern, n).Go?
    ensures ReadFrom(pattern, ReadUpTo(pattern, n).p, ReadUpTo(pattern, n).rd) == ReadPattern(pattern)
  {
    hide ReadNext;
    if n > 0 {
      ReadsOn(pattern, n - 1);
    }
  }

  /** At some moment the code is so long that together with `n` more bytes it does not fit `max`. */
  ghost predicate Outgrows(pattern: seq<byte>, n: nat, max: nat) {
    exists k: nat :: ReadUpTo(pattern, k).Go? && CodeSize(ReadUpTo(pattern, k).rd) + n > max
  }

  // ---- the layout has this size ----

  lemma LevelLength(done: seq<Branch>, branch: seq<Node>, g: nat, hole: seq<byte>)
    requires |hole| == 3
    ensures |LevelCode(done, branch, g, hole)| == LevelSize(done, branch, g)
  {
    hide OpenHead, CodeBranch, GroupsAlts;
  }

  lemma {:induction false} StackLength(stack: seq<Frame>, saved: seq<Saved>, holes: seq<seq<byte>>)
    requires |holes| == |stack| && SavedAllOk(saved, stack, holes)
    ensures |StackCode(stack, holes)| == StackSize(stack)
  {
    hide SavedOk, LevelCode, Base, StartBytes, LevelSize;
    var n := |stack|;
    if n > 0 {
      StackLength(stack[..n - 1], saved[..n - 1], holes[..n - 1]);
      LevelLength(stack[n - 1].done, stack[n - 1].branch, Base(stack[..n - 1]), holes[n - 1]);
    }
  }

  lemma LaidSize(code: seq<byte>, rd: Reader, holes: Holes, v: Pointers)
    requires Laid(code, rd, holes, v)
    ensures |code| == CodeSize(rd)
  {
    hide SavedAllOk, StackCode, LevelCode, StackSize, LevelSize, PendingOk, OpenAlts, OpenHead, CodeBranch, GroupsAlts;
    StackLength(rd.stack, v.saved, holes.outer);
    LevelLength(rd.done, rd.branch, Base(rd.stack), holes.inner);
  }

  // ---- reading on makes it no shorter ----

  lemma LevelPushed(done: seq<Branch>, branch: seq<Node>, g: nat, n: Node)
    ensures LevelSize(done, branch + [n], g) == LevelSize(done, branch, g) + |CodeNode(n, g + GroupsAlts(done) + GroupsBranch(branch))|
  {
    hide LevelCode, CodeNode, GroupsAlts, GroupsBranch;
    LevelCodeSnoc(done, branch, g, [0, 0, 0], n);
  }

  lemma PushGrows(rd: Reader, n: Node)
    ensures CodeSize(rd) <= CodeSize(Push(rd, n))
  {
    hide LevelSize, StackSize, Base, CodeNode, GroupsAlts, GroupsBranch;
    LevelPushed(rd.done, rd.branch, Base(rd.stack), n);
  }

  /** The last expression gives way to one with more code. */
  lemma ReplaceGrows(rd: Reader, n: Node)
    requires |rd.branch| > 0 && forall g :: |CodeNode(rd.branch[|rd.branch| - 1], g)| <= |CodeNode(n, g)|
    ensures CodeSize(rd) <= CodeSize(ReplaceLast(rd, n))
  {
    hide LevelSize, StackSize, Base, CodeNode, GroupsAlts, GroupsBranch;
    var init, last := rd.branch[..|rd.branch| - 1], rd.branch[|rd.branch| - 1];
    assert rd.branch == init + [last];
    LevelPushed(rd.done, init, Base(rd.stack), last);
    LevelPushed(rd.done, init, Base(rd.stack), n);
  }

  lemma AddLiteralGrows(rd: Reader, lit: Literal, next: byte)
    ensures CodeSize(rd) <= CodeSize(AddLiteral(rd, lit, next))
  {
    hide CodeSize;
    if Joins(rd.branch, next) {
      ReplaceGrows(rd, Exact(rd.branch[|rd.branch| - 1].lits + [lit]));
    } else {
      PushGrows(rd, Exact([lit]));
    }
  }

  lemma RepeatedGrows(rd: Reader, ops: seq<RepeatOp>)
    ensures CodeSize(rd) <= CodeSize(Repeated(rd, ops))
  {
    hide CodeSize, ZeroOk, ManyOk;
    if HasLast(rd.branch) {
      ReplaceGrows(rd, Repeat(rd.branch[|rd.branch| - 1], ops));
    } else {
      PushGrows(rd, Skipped(ops));
    }
  }

  lemma CountedGrows(rd: Reader, lower: seq<byte>, upper: UpperBound)
    ensures CodeSize(rd) <= CodeSize(Counted(rd, lower, upper))
  {
    hide CodeSize;
    if HasLast(rd.branch) {
      ReplaceGrows(rd, Interval(rd.branch[|rd.branch| - 1], lower, upper));
    } else {
      PushGrows(rd, Interval(Skipped([]), lower, upper));
    }
  }

  lemma OpeningGrows(rd: Reader)
    ensures CodeSize(rd) <= CodeSize(Opening(rd))
  {
    hide LevelSize, Base;
    var stack := rd.stack + [Frame(rd.done, rd.branch)];
    assert stack[..|rd.stack|] == rd.stack;
  }

  /** All alternatives of a level take the bytes they have taken so far. */
  lemma FilledSize(done: seq<Branch>, branch: seq<Node>, g: nat)
    ensures |CodeAlts(done + [Branch(branch)], g)| == LevelSize(done, branch, g)
  {
    hide LevelCode, CodeAlts, LevelSize;
    FilledIs(done, branch, g);
    LevelLength(done, branch, g, Op1(JUMP_PAST_ALT, |CodeBranch(branch, g + GroupsAlts(done))|));
  }

  lemma GroupSize(alts: seq<Branch>, g: nat)
    ensures |CodeNode(Group(alts), g)| >= |CodeAlts(alts, g + 1)| + |StartBytes(g + 1)|
  {
    hide CodeAlts, GroupsAlts;
  }

  lemma ClosingGrows(rd: Reader)
    requires |rd.stack| > 0
    ensures CodeSize(rd) <= CodeSize(Closing(rd))
  {
    hide LevelSize, CodeNode, GroupsAlts, GroupsBranch, StartBytes;
    var init, frame := rd.stack[..|rd.stack| - 1], rd.stack[|rd.stack| - 1];
    var alts, h := rd.done + [Branch(rd.branch)], Base(init) + GroupsAlts(frame.done) + GroupsBranch(frame.branch);
    assert Base(rd.stack) == h + 1;
    FilledSize(rd.done, rd.branch, h + 1);
    GroupSize(alts, h);
    LevelPushed(frame.done, frame.branch, Base(init), Group(alts));
  }

  lemma AlternativeGrows(rd: Reader)
    ensures CodeSize(rd) <= CodeSize(Alternative(rd))
  {
    hide StackSize, Base, CodeBranch, GroupsAlts, OpenHead, Op1;
    var g, all := Base(rd.stack), rd.done + [Branch(rd.branch)];
    if |rd.done| == 0 {
      NoGroups(rd.done);
      OpenHeadOne(all, g);
    } else {
      OpenHeadSnoc(rd.done, Branch(rd.branch), g);
    }
  }

  /** No construct makes the code shorter. */
  lemma NextGrows(pattern: seq<byte>, p: nat, rd: Reader)
    requires p < |pattern| && ReadNext(pattern, p, rd).Go?
    ensures CodeSize(rd) <= CodeSize(ReadNext(pattern, p, rd).rd)
  {
    hide CodeSize, AddLiteral, Repeated, Counted, Opening, Closing, Alternative, ReadOps, ReadBraces, ReadItems, Push;
    var c := pattern[p];
    LiteralsGrow(pattern, p, rd);
    if IsOp(c) {
      RepeatedGrows(rd, ReadOps(pattern, p));
    } else if c == DOT {
      PushGrows(rd, AnyChar);
    } else if c == LBRACKET {
      BracketGrows(pattern, p + 1, rd);
    } else if c == OPEN {
      OpeningGrows(rd);
    } else if c == CLOSE && |rd.stack| > 0 {
      ClosingGrows(rd);
    } else if c == BAR {
      AlternativeGrows(rd);
    } else if c == LBRACE && ReadBraces(pattern, p + 1).Some? {
      CountedGrows(rd, ReadBraces(pattern, p + 1).value.lower, ReadBraces(pattern, p + 1).value.upper);
    }
  }

  lemma LiteralsGrow(pattern: seq<byte>, p: nat, rd: Reader)
    requires p < |pattern|
    ensures CodeSize(rd) <= CodeSize(AddLiteral(rd, Literal(pattern[p], false), Peek(pattern, p + 1)))
    ensures p + 1 < |pattern| ==> CodeSize(rd) <= CodeSize(AddLiteral(rd, Literal(pattern[p + 1], true), Peek(pattern, p + 2)))
    ensures CodeSize(rd) <= CodeSize(Unmatched(rd, Peek(pattern, p + 1)))
  {
    hide CodeSize, AddLiteral, Push, Peek;
    AddLiteralGrows(rd, Literal(pattern[p], false), Peek(pattern, p + 1));
    if p + 1 < |pattern| {
      AddLiteralGrows(rd, Literal(pattern[p + 1], true), Peek(pattern, p + 2));
    }
    PushGrows(rd, Stray);
    AddLiteralGrows(if |rd.done| > 0 then Push(rd, Stray) else rd, Literal(CLOSE, false), Peek(pattern, p + 1));
  }

  lemma BracketGrows(pattern: seq<byte>, p: nat, rd: Reader)
    requires p <= |pattern| && NextBracket(pattern, p, rd).Go?
    ensures CodeSize(rd) <= CodeSize(NextBracket(pattern, p, rd).rd)
  {
    hide CodeSize, Push, ReadItems;
    var negated := pattern[p] == CARET;
    var first := if negated then p + 1 else p;
    PushGrows(rd, CharSet(negated, ReadItems(pattern, first, first, [], false).items));
  }

  lemma {:induction false} ReadGrows(pattern: seq<byte>, p: nat, rd: Reader)
    requires p <= |pattern| && ReadFrom(pattern, p, rd).Read?
    ensures CodeSize(rd) <= |CodeAlts(ReadFrom(pattern, p, rd).alts, 0)|
    decreases |pattern| - p
  {
    hide ReadNext, LevelSize, CodeAlts;
    if p == |pattern| {
      FilledSize(rd.done, rd.branch, 0);
    } else {
      NextGrows(pattern, p, rd);
      ReadGrows(pattern, ReadNext(pattern, p, rd).p, ReadNext(pattern, p, rd).rd);
    }
  }

  /** If the code is too long at some moment, it is too long at the end, when the pattern has one. */
  lemma OutgrowsAtEnd(pattern: seq<byte>, n: nat, max: nat)
    requires Outgrows(pattern, n, max) && ReadPattern(pattern).Read?
    ensures |CodeAlts(ReadPattern(pattern).alts, 0)| + n > max
  {
    hide CodeSize, ReadFrom, CodeAlts, ReadUpTo;
    var k: nat :| ReadUpTo(pattern, k).Go? && CodeSize(ReadUpTo(pattern, k).rd) + n > max;
    ReadsOn(pattern, k);
    ReadGrows(pattern, ReadUpTo(pattern, k).p, ReadUpTo(pattern, k).rd);
  }

  lemma TooLong(pattern: seq<byte>, k: nat, n: nat, max: nat)
    requires ReadUpTo(pattern, k).Go? && CodeSize(ReadUpTo(pattern, k).rd) + n > max
    ensures Outgrows(pattern, n, max)
    ensures ReadPattern(pattern).Read? ==> |CodeAlts(ReadPattern(pattern).alts, 0)| + n > max
  {
    hide CodeSize, ReadUpTo, ReadFrom, CodeAlts;
    assert Outgrows(pattern, n, max);
    if ReadPattern(pattern).Read? {
      OutgrowsAtEnd(pattern, n, max);
    }
  }
}
